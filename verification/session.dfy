/** A lesson being played with the progress bookkeeping attached: a click
    that completes the lesson calls `updateLessonPlayCount` for the current
    lesson's file (script.js:406-417). Whether Firebase is ready and whether
    its calls fail are fixed for the session. */
module LessonSession {
  import opened Lessons
  import opened Shuffle
  import opened MatchGame
  import opened PlayCounts

  datatype Session = Session(game: Game, progress: Progress)

  /** One click: the game step, then the play-count update if the step
      completed the lesson. */
  function Click(s: Session, c: CardClick, ready: bool, failed: bool): (r: Session)
    requires OnBoard(s.game, c)
    ensures r.game == Step(s.game, c).game
    ensures !Step(s.game, c).completed ==> r.progress == s.progress
  {
    var step := Step(s.game, c);
    Session(step.game,
            if step.completed then UpdatePlayCount(s.progress, s.game.lesson.filename, ready, failed)
            else s.progress)
  }

  /** A sequence of clicks. */
  function Play(s: Session, clicks: seq<CardClick>, ready: bool, failed: bool): (r: Session)
    requires forall c :: c in clicks ==> OnBoard(s.game, c)
    decreases |clicks|
  {
    if clicks == [] then s
    else
      var next := Click(s, clicks[0], ready, failed);
      assert SameBoard(s.game, next.game);
      assert forall c :: c in clicks[1..] ==> OnBoard(next.game, c) by {
        forall c | c in clicks[1..]
          ensures OnBoard(next.game, c)
        {
          assert c in clicks;
          assert OnBoard(s.game, c);
        }
      }
      Play(next, clicks[1..], ready, failed)
  }

  /** The lessons keep their files through an update. */
  lemma UpdateKeepsFilenames(p: Progress, filename: string, ready: bool, failed: bool)
    requires DistinctFilenames(p.lessons)
    ensures DistinctFilenames(UpdatePlayCount(p, filename, ready, failed).lessons)
  {
    var r := UpdatePlayCount(p, filename, ready, failed).lessons;
    assert SameButCounts(p.lessons, r);
    forall i, j | 0 <= i < j < |r|
      ensures r[i].filename != r[j].filename
    {
      assert r[i].filename == p.lessons[i].filename;
      assert r[j].filename == p.lessons[j].filename;
    }
  }

  /** From any starting point, in sync with the store or not, playing a
      sequence of clicks ends in the game the clicks lead to, raises the
      stored count of the lesson's file once per completion (when Firebase
      is ready and its calls succeed), and moves no other file's count. */
  lemma {:induction false} PlayStoreCounts(s: Session, clicks: seq<CardClick>, ready: bool, failed: bool)
    requires forall c :: c in clicks ==> OnBoard(s.game, c)
    ensures Play(s, clicks, ready, failed).game == Run(s.game, clicks).game
    ensures forall f :: StoredCount(Play(s, clicks, ready, failed).progress.store, f)
              == StoredCount(s.progress.store, f)
                 + (if f == s.game.lesson.filename && ready && !failed then Run(s.game, clicks).completions else 0)
    decreases |clicks|
  {
    if clicks != [] {
      var next := Click(s, clicks[0], ready, failed);
      var step := Step(s.game, clicks[0]);
      assert step.game.lesson == s.game.lesson;
      assert forall c :: c in clicks[1..] ==> OnBoard(next.game, c) by {
        forall c | c in clicks[1..]
          ensures OnBoard(next.game, c)
        {
          assert c in clicks;
        }
      }
      PlayStoreCounts(next, clicks[1..], ready, failed);
    }
  }

  /** Playing a sequence of clicks ends in the game the clicks lead to; the
      stored count of the lesson's file goes up once per completion (when
      Firebase is ready and does not fail), no other file's count moves,
      and the lessons stay in sync with the store. */
  lemma {:induction false} PlayRecordsCompletions(s: Session, clicks: seq<CardClick>, ready: bool, failed: bool)
    requires forall c :: c in clicks ==> OnBoard(s.game, c)
    requires Synced(s.progress.lessons, s.progress.store)
    requires DistinctFilenames(s.progress.lessons)
    ensures Play(s, clicks, ready, failed).game == Run(s.game, clicks).game
    ensures Synced(Play(s, clicks, ready, failed).progress.lessons, Play(s, clicks, ready, failed).progress.store)
    ensures DistinctFilenames(Play(s, clicks, ready, failed).progress.lessons)
    ensures forall f :: StoredCount(Play(s, clicks, ready, failed).progress.store, f)
              == StoredCount(s.progress.store, f)
                 + (if f == s.game.lesson.filename && ready && !failed then Run(s.game, clicks).completions else 0)
    decreases |clicks|
  {
    if clicks != [] {
      var next := Click(s, clicks[0], ready, failed);
      var step := Step(s.game, clicks[0]);
      assert step.game.lesson == s.game.lesson;
      if step.completed {
        UpdateKeepsSynced(s.progress, s.game.lesson.filename, ready, failed);
        UpdateKeepsFilenames(s.progress, s.game.lesson.filename, ready, failed);
      }
      assert forall c :: c in clicks[1..] ==> OnBoard(next.game, c) by {
        forall c | c in clicks[1..]
          ensures OnBoard(next.game, c)
        {
          assert c in clicks;
        }
      }
      PlayRecordsCompletions(next, clicks[1..], ready, failed);
    }
  }

  /** Playing a freshly started lesson: its stored count goes up by one
      exactly when every pair ends up matched and Firebase is ready and its
      calls succeed, and by nothing otherwise; other files keep their
      counts. This holds even when the lessons do not show the stored
      counts (a failed fetch of the counts leaves them at 0); when they do
      and no two share a file, they still do afterwards. */
  lemma FreshPlayCountsOnce(lesson: Lesson, englishDraws: seq<nat>, vietnameseDraws: seq<nat>,
                            p: Progress, clicks: seq<CardClick>, ready: bool, failed: bool)
    requires ValidDraws(englishDraws, |lesson.vocab|) && ValidDraws(vietnameseDraws, |lesson.vocab|)
    requires DistinctIds(lesson.vocab) && |lesson.vocab| > 0
    requires forall c :: c in clicks ==> c.position < |lesson.vocab|
    ensures forall c :: c in clicks ==> OnBoard(InitializeGame(lesson, englishDraws, vietnameseDraws), c)
    ensures var s := Play(Session(InitializeGame(lesson, englishDraws, vietnameseDraws), p), clicks, ready, failed);
            forall f :: StoredCount(s.progress.store, f)
              == StoredCount(p.store, f)
                 + (if f == lesson.filename && ready && !failed && s.game.matchesFound == |lesson.vocab|
                    then 1 else 0)
    ensures var s := Play(Session(InitializeGame(lesson, englishDraws, vietnameseDraws), p), clicks, ready, failed);
            Synced(p.lessons, p.store) && DistinctFilenames(p.lessons) ==> Synced(s.progress.lessons, s.progress.store)
  {
    var g := InitializeGame(lesson, englishDraws, vietnameseDraws);
    FreshGameCompletesOnce(lesson, englishDraws, vietnameseDraws, clicks);
    PlayStoreCounts(Session(g, p), clicks, ready, failed);
    if Synced(p.lessons, p.store) && DistinctFilenames(p.lessons) {
      PlayRecordsCompletions(Session(g, p), clicks, ready, failed);
    }
  }
}
