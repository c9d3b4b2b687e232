/** The file loop of `loadAllLessons` (script.js:113-172): fetch
    `word1.txt`, `word2.txt`, ... in turn, keep the lessons that parse, and
    stop at the first file that is not there (HTTP 404) or cannot be
    fetched. The fetches themselves are replaced by the list of their
    outcomes, in file-number order. */
module LessonLoader {
  import opened Wrappers
  import opened Text
  import opened Lessons
  import opened LessonParser

  /** What fetching one lesson file gave: its text, a 404, or any other
      failure (another HTTP status, a network error). */
  datatype Fetch = Fetched(text: string) | NotFound | Failed

  /** The number the file loop starts from. */
  const FirstNumber: nat := 1

  /** The name of lesson file `n`: `word`, the number in decimal, `.txt`
      (script.js:117). */
  function FileName(n: nat): string {
    "word" + NatToString(n) + ".txt"
  }

  /** The number in a file name of the form `word<digits>.txt`, the inverse
      of `FileName`. */
  function FileNumber(name: string): Option<nat> {
    if |name| >= 9 && name[..4] == "word" && name[|name| - 4..] == ".txt"
       && AllDigits(name[4..|name| - 4])
    then Some(DigitsValue(name[4..|name| - 4]))
    else None
  }

  /** Reading the number back out of a lesson file name gives the number. */
  lemma FileNumberOfFileName(n: nat)
    ensures FileNumber(FileName(n)) == Some(n)
  {
    var digits := NatToString(n);
    var name := FileName(n);
    assert name[..4] == "word";
    assert name[|name| - 4..] == ".txt";
    assert name[4..|name| - 4] == digits;
  }

  /** Different file numbers give different file names. */
  lemma FileNameInjective(m: nat, n: nat)
    requires FileName(m) == FileName(n)
    ensures m == n
  {
    FileNumberOfFileName(m);
    FileNumberOfFileName(n);
  }

  /** How many files the loop gets through: the outcomes before the first
      one that is not a fetched text. */
  function Reached(outcomes: seq<Fetch>): (r: nat)
    ensures r <= |outcomes|
    ensures forall k :: 0 <= k < r ==> outcomes[k].Fetched?
    ensures r < |outcomes| ==> !outcomes[r].Fetched?
  {
    if outcomes == [] || !outcomes[0].Fetched? then 0 else 1 + Reached(outcomes[1..])
  }

  /** `l` is the lesson parsed from a file the loop reached, where
      `outcomes[k]` is the outcome for file `number + k`. */
  ghost predicate LoadedFrom(outcomes: seq<Fetch>, number: nat, l: Lesson) {
    && FileNumber(l.filename).Some?
    && number <= FileNumber(l.filename).value < number + Reached(outcomes)
    && ParseLesson(l.filename, outcomes[FileNumber(l.filename).value - number].text) == Some(l)
  }

  /** The lessons come in strictly increasing file-number order. */
  ghost predicate InFileOrder(lessons: seq<Lesson>) {
    forall i, j :: 0 <= i < j < |lessons| ==>
      && FileNumber(lessons[i].filename).Some?
      && FileNumber(lessons[j].filename).Some?
      && FileNumber(lessons[i].filename).value < FileNumber(lessons[j].filename).value
  }

  /** The lesson file `number + k` gives when it parses. */
  function ParsedAt(outcomes: seq<Fetch>, number: nat, k: nat): Option<Lesson>
    requires k < |outcomes| && outcomes[k].Fetched?
  {
    ParseLesson(FileName(number + k), outcomes[k].text)
  }

  /** Every reached file that parses has its lesson among `lessons`. */
  ghost predicate KeepsEvery(outcomes: seq<Fetch>, number: nat, lessons: seq<Lesson>) {
    forall k: nat :: k < Reached(outcomes) && ParsedAt(outcomes, number, k).Some?
      ==> ParsedAt(outcomes, number, k).value in lessons
  }

  /** The loop from file number `number` on, where `outcomes[k]` is the
      result of fetching file `number + k` and fetches past the end of the
      list are 404s. Every lesson returned is the parse of one fetched file
      before the first failure, in increasing file-number order, and every
      such file that parses contributes its lesson. */
  function LoadFrom(outcomes: seq<Fetch>, number: nat): (lessons: seq<Lesson>)
    decreases |outcomes|
    ensures forall i :: 0 <= i < |lessons| ==> LoadedFrom(outcomes, number, lessons[i])
    ensures InFileOrder(lessons)
    ensures KeepsEvery(outcomes, number, lessons)
  {
    if outcomes == [] then []
    else match outcomes[0]
      case Fetched(text) =>
        var rest := LoadFrom(outcomes[1..], number + 1);
        var here := ParsedAt(outcomes, number, 0);
        var lessons := (if here.Some? then [here.value] else []) + rest;
        LoadStepFrom(outcomes, number, here, rest, lessons);
        LoadStepOrder(outcomes, number, here, rest, lessons);
        LoadStepKeeps(outcomes, number, here, rest, lessons);
        lessons
      case NotFound => []
      case Failed => []
  }

  /** A lesson loaded from the files after the first is loaded from the
      whole run. */
  lemma LoadedShift(outcomes: seq<Fetch>, number: nat, l: Lesson)
    requires |outcomes| > 0 && outcomes[0].Fetched?
    requires LoadedFrom(outcomes[1..], number + 1, l)
    ensures LoadedFrom(outcomes, number, l)
  {
    var n := FileNumber(l.filename).value;
    assert outcomes[1..][n - (number + 1)] == outcomes[n - number];
  }

  /** The lesson of the first file, when it parses, is loaded from it. */
  lemma LoadedHere(outcomes: seq<Fetch>, number: nat)
    requires |outcomes| > 0 && outcomes[0].Fetched?
    requires ParsedAt(outcomes, number, 0).Some?
    ensures LoadedFrom(outcomes, number, ParsedAt(outcomes, number, 0).value)
    ensures FileNumber(ParsedAt(outcomes, number, 0).value.filename) == Some(number)
  {
    FileNumberOfFileName(number);
  }

  /** The file number of a lesson is known and at least `number`. */
  ghost predicate NumberedFrom(number: nat, l: Lesson) {
    FileNumber(l.filename).Some? && number <= FileNumber(l.filename).value
  }

  lemma LoadedNumbered(outcomes: seq<Fetch>, number: nat, l: Lesson)
    requires LoadedFrom(outcomes, number, l)
    ensures NumberedFrom(number, l)
  {
  }

  lemma LoadStepFrom(outcomes: seq<Fetch>, number: nat, here: Option<Lesson>, rest: seq<Lesson>,
                     lessons: seq<Lesson>)
    requires |outcomes| > 0 && outcomes[0].Fetched?
    requires here == ParsedAt(outcomes, number, 0)
    requires lessons == (if here.Some? then [here.value] else []) + rest
    requires forall i :: 0 <= i < |rest| ==> LoadedFrom(outcomes[1..], number + 1, rest[i])
    ensures forall i :: 0 <= i < |lessons| ==> LoadedFrom(outcomes, number, lessons[i])
  {
    var d := if here.Some? then 1 else 0;
    forall i | d <= i < |lessons|
      ensures LoadedFrom(outcomes, number, lessons[i])
    {
      assert lessons[i] == rest[i - d];
      LoadedShift(outcomes, number, rest[i - d]);
    }
    if here.Some? {
      LoadedHere(outcomes, number);
    }
  }

  lemma LoadStepOrder(outcomes: seq<Fetch>, number: nat, here: Option<Lesson>, rest: seq<Lesson>,
                      lessons: seq<Lesson>)
    requires |outcomes| > 0 && outcomes[0].Fetched?
    requires here == ParsedAt(outcomes, number, 0)
    requires lessons == (if here.Some? then [here.value] else []) + rest
    requires forall i :: 0 <= i < |rest| ==> LoadedFrom(outcomes[1..], number + 1, rest[i])
    requires InFileOrder(rest)
    ensures InFileOrder(lessons)
  {
    if here.Some? {
      LoadedHere(outcomes, number);
      forall i | 0 <= i < |rest|
        ensures NumberedFrom(number + 1, rest[i])
      {
        LoadedNumbered(outcomes[1..], number + 1, rest[i]);
      }
      OrderCons(number, here.value, rest);
    }
  }

  /** A lesson from file `number` followed by lessons from later files, in
      order, is in order. */
  lemma OrderCons(number: nat, first: Lesson, rest: seq<Lesson>)
    requires FileNumber(first.filename) == Some(number)
    requires forall i :: 0 <= i < |rest| ==> NumberedFrom(number + 1, rest[i])
    requires InFileOrder(rest)
    ensures InFileOrder([first] + rest)
  {
    var lessons := [first] + rest;
    forall i, j | 0 <= i < j < |lessons|
      ensures && FileNumber(lessons[i].filename).Some?
              && FileNumber(lessons[j].filename).Some?
              && FileNumber(lessons[i].filename).value < FileNumber(lessons[j].filename).value
    {
      assert lessons[j] == rest[j - 1];
      assert NumberedFrom(number + 1, rest[j - 1]);
      if i > 0 {
        assert lessons[i] == rest[i - 1];
      }
    }
  }

  lemma LoadStepKeeps(outcomes: seq<Fetch>, number: nat, here: Option<Lesson>, rest: seq<Lesson>,
                      lessons: seq<Lesson>)
    requires |outcomes| > 0 && outcomes[0].Fetched?
    requires here == ParsedAt(outcomes, number, 0)
    requires lessons == (if here.Some? then [here.value] else []) + rest
    requires KeepsEvery(outcomes[1..], number + 1, rest)
    ensures KeepsEvery(outcomes, number, lessons)
  {
    assert Reached(outcomes) == 1 + Reached(outcomes[1..]);
    forall k: nat | 0 < k < Reached(outcomes)
      ensures ParsedAt(outcomes, number, k) == ParsedAt(outcomes[1..], number + 1, k - 1)
    {
      ParsedShift(outcomes, number, k);
    }
  }

  /** File `number + k` is file `(number + 1) + (k - 1)`. */
  lemma ParsedShift(outcomes: seq<Fetch>, number: nat, k: nat)
    requires 0 < k < |outcomes| && outcomes[k].Fetched?
    ensures ParsedAt(outcomes, number, k) == ParsedAt(outcomes[1..], number + 1, k - 1)
  {
    assert outcomes[1..][k - 1] == outcomes[k];
    assert number + 1 + (k - 1) == number + k;
  }

  /** `loadAllLessons`: the loop from `word1.txt`. */
  function LoadAllLessons(outcomes: seq<Fetch>): seq<Lesson> {
    LoadFrom(outcomes, FirstNumber)
  }

  /** What the loaded lessons look like: each has a non-empty vocabulary
      with distinct ids and a play count of 0, and no two share a file
      name. */
  lemma LoadedLessons(outcomes: seq<Fetch>)
    ensures forall i :: 0 <= i < |LoadAllLessons(outcomes)| ==>
              var l := LoadAllLessons(outcomes)[i];
              |l.vocab| > 0 && DistinctIds(l.vocab) && l.playCount == 0
    ensures forall i, j :: 0 <= i < j < |LoadAllLessons(outcomes)| ==>
              LoadAllLessons(outcomes)[i].filename != LoadAllLessons(outcomes)[j].filename
  {
    var lessons := LoadAllLessons(outcomes);
    forall i | 0 <= i < |lessons|
      ensures |lessons[i].vocab| > 0 && DistinctIds(lessons[i].vocab) && lessons[i].playCount == 0
    {
      assert LoadedFrom(outcomes, FirstNumber, lessons[i]);
    }
    forall i, j | 0 <= i < j < |lessons|
      ensures lessons[i].filename != lessons[j].filename
    {
      assert FileNumber(lessons[i].filename).value < FileNumber(lessons[j].filename).value;
    }
  }

  /** Nothing after the first missing or failed file matters: the loop has
      stopped by then. */
  lemma {:induction false} StopsAtFirstFailure(outcomes: seq<Fetch>, number: nat)
    ensures LoadFrom(outcomes, number) == LoadFrom(outcomes[..Reached(outcomes)], number)
    decreases |outcomes|
  {
    if outcomes != [] && outcomes[0].Fetched? {
      var prefix := outcomes[..Reached(outcomes)];
      assert prefix[0] == outcomes[0];
      assert prefix[1..] == outcomes[1..][..Reached(outcomes[1..])];
      StopsAtFirstFailure(outcomes[1..], number + 1);
    }
  }
}
