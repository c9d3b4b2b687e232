/** Turning the text of one `wordN.txt` file into a lesson, as the body of
    the loop in `loadAllLessons` does (script.js:131-164): split the text on
    newlines and drop blank lines; the first remaining line is the title;
    every later line that splits on " - " into exactly two pieces becomes a
    pair of English and Vietnamese text whose id is the file name, `-word-`
    and the line's position `i` among the lines after the title, counting
    malformed ones too (script.js:141-147). */
module LessonParser {
  import opened Wrappers
  import opened Text
  import opened Lessons

  /** What a vocabulary line is split on. */
  const Separator: string := " - "

  /** What the file text is split on. */
  const Newline: string := "\n"

  // ---------------------------------------------------------------------
  // Lines
  // ---------------------------------------------------------------------

  /** A blank line: empty, or white space only once trimmed (script.js:132). */
  predicate IsBlank(line: string) {
    Trim(line) == ""
  }

  /** Blank means white space only, whichever white space it is. */
  lemma BlankIffAllSpace(line: string)
    ensures IsBlank(line) <==> AllSpace(line)
  {
    TrimSpec(line);
  }

  /** `raw[k]` is the first line of `raw` that is not blank. */
  ghost predicate FirstNonBlankAt(raw: seq<string>, k: nat) {
    k < |raw| && !IsBlank(raw[k]) && forall j :: 0 <= j < k ==> IsBlank(raw[j])
  }

  /** The filter on blank lines: keep the non-blank lines, in their order.
      The lines kept are exactly the non-blank ones, and the first of them
      is the first non-blank line of the input. */
  function NonBlankLines(raw: seq<string>): (lines: seq<string>)
    ensures |lines| <= |raw|
    ensures forall l :: l in lines <==> l in raw && !IsBlank(l)
    ensures forall k: nat :: FirstNonBlankAt(raw, k) ==> |lines| > 0 && lines[0] == raw[k]
  {
    if raw == [] then []
    else
      var rest := NonBlankLines(raw[1..]);
      var lines := (if IsBlank(raw[0]) then [] else [raw[0]]) + rest;
      FirstNonBlankStep(raw, rest, lines);
      lines
  }

  /** The first kept line is found either at the head of the input or,
      when the head is blank, in the rest. */
  lemma FirstNonBlankStep(raw: seq<string>, rest: seq<string>, lines: seq<string>)
    requires |raw| > 0
    requires lines == (if IsBlank(raw[0]) then [] else [raw[0]]) + rest
    requires forall k: nat :: FirstNonBlankAt(raw[1..], k) ==> |rest| > 0 && rest[0] == raw[1..][k]
    ensures forall k: nat :: FirstNonBlankAt(raw, k) ==> |lines| > 0 && lines[0] == raw[k]
  {
    forall k: nat | FirstNonBlankAt(raw, k)
      ensures |lines| > 0 && lines[0] == raw[k]
    {
      if k > 0 {
        assert IsBlank(raw[0]);
        assert FirstNonBlankAt(raw[1..], k - 1) by {
          forall j | 0 <= j < k - 1
            ensures IsBlank(raw[1..][j])
          {
            assert raw[1..][j] == raw[j + 1];
          }
        }
      }
    }
  }

  /** The filter works line by line: filtering two runs of lines one after
      the other is filtering each run. */
  lemma {:induction false} NonBlankLinesAppend(a: seq<string>, b: seq<string>)
    ensures NonBlankLines(a + b) == NonBlankLines(a) + NonBlankLines(b)
  {
    if a == [] {
      assert a + b == b;
    } else {
      var head := if IsBlank(a[0]) then [] else [a[0]];
      assert (a + b)[0] == a[0];
      assert (a + b)[1..] == a[1..] + b;
      calc {
        NonBlankLines(a + b);
        head + NonBlankLines(a[1..] + b);
        { NonBlankLinesAppend(a[1..], b); }
        head + (NonBlankLines(a[1..]) + NonBlankLines(b));
        (head + NonBlankLines(a[1..])) + NonBlankLines(b);
        NonBlankLines(a) + NonBlankLines(b);
      }
    }
  }

  /** Lines without a blank one come through the filter untouched. */
  lemma {:induction false} NonBlankLinesKeepsAll(raw: seq<string>)
    requires forall k :: 0 <= k < |raw| ==> !IsBlank(raw[k])
    ensures NonBlankLines(raw) == raw
  {
    if raw != [] {
      assert !IsBlank(raw[0]);
      NonBlankLinesKeepsAll(raw[1..]);
    }
  }

  /** The non-blank lines of a lesson file. */
  function Lines(text: string): seq<string> {
    NonBlankLines(Split(text, Newline))
  }

  // ---------------------------------------------------------------------
  // Vocabulary lines
  // ---------------------------------------------------------------------

  /** `line.split(' - ')` yields exactly two pieces with the cut at `p`: the
      leftmost separator starts at `p` and no separator starts after it. */
  ghost predicate SplitsInTwoAt(line: string, p: nat) {
    && OccursAt(line, Separator, p)
    && (forall q: nat :: q < p ==> !OccursAt(line, Separator, q))
    && (forall q: nat :: p + |Separator| <= q ==> !OccursAt(line, Separator, q))
  }

  /** A vocabulary line is well formed when splitting it on the separator
      gives exactly two pieces (script.js:142-143). */
  predicate WellFormed(line: string) {
    |Split(line, Separator)| == 2
  }

  /** A line is well formed exactly when it splits in two at some position,
      and then the two pieces are the text before and after that
      separator. So "a - b - c" and a line with no separator are not well
      formed. */
  lemma WellFormedIff(line: string)
    ensures WellFormed(line) <==> exists p: nat :: SplitsInTwoAt(line, p)
    ensures forall p: nat :: SplitsInTwoAt(line, p) ==>
              Split(line, Separator) == [line[..p], line[p + |Separator|..]]
  {
    var sep := Separator;
    var parts := Split(line, sep);
    SplitIsSplit(line, sep);
    if |parts| == 2 {
      var a, b := parts[0], parts[1];
      assert parts[1..] == [b];
      assert IsSplitOf(parts, line, sep);
      assert Join(parts, sep) == line;
      assert line == a + sep + b;
      assert line[|a|..|a| + |sep|] == sep;
      assert Leftmost(a, sep) && Free(b, sep);
      forall q: nat | q < |a|
        ensures !OccursAt(line, sep, q)
      {
        assert line[..|a| + |sep|] == a + sep;
        assert (a + sep)[q..q + |sep|] == line[q..q + |sep|];
        assert !OccursAt(a + sep, sep, q);
      }
      forall q: nat | |a| + |sep| <= q
        ensures !OccursAt(line, sep, q)
      {
        var d := q - |a| - |sep|;
        assert line[|a| + |sep|..] == b;
        if q + |sep| <= |line| {
          assert line[q..q + |sep|] == b[d..d + |sep|];
        }
        assert !OccursAt(b, sep, d);
      }
      assert SplitsInTwoAt(line, |a|);
    }
    forall p: nat | SplitsInTwoAt(line, p)
      ensures Split(line, sep) == [line[..p], line[p + |sep|..]]
    {
      SplitAtTwo(line, p);
    }
  }

  lemma SplitAtTwo(line: string, p: nat)
    requires SplitsInTwoAt(line, p)
    ensures Split(line, Separator) == [line[..p], line[p + |Separator|..]]
  {
    var sep := Separator;
    var a, b := line[..p], line[p + |sep|..];
    assert line == a + sep + b by {
      assert line == line[..p] + line[p..p + |sep|] + line[p + |sep|..];
    }
    assert Join([a, b], sep) == line by {
      assert [a, b][1..] == [b];
    }
    forall q: nat | q < |a|
      ensures !OccursAt(a + sep, sep, q)
    {
      assert line[..p + |sep|] == a + sep;
      assert (a + sep)[q..q + |sep|] == line[q..q + |sep|];
      assert !OccursAt(line, sep, q);
    }
    forall q: nat | q <= |b|
      ensures !OccursAt(b, sep, q)
    {
      if q + |sep| <= |b| {
        assert b[q..q + |sep|] == line[p + |sep| + q..p + |sep| + q + |sep|];
      }
      assert !OccursAt(line, sep, p + |sep| + q);
    }
    assert IsSplitOf([a, b], line, sep);
    SplitUnique([a, b], line, sep);
  }

  /** `" - "` cannot start at `p` when one of the three characters there
      differs from it. */
  lemma NoSeparatorAt(s: string, p: nat)
    requires p + 3 > |s| || s[p] != ' ' || s[p + 1] != '-' || s[p + 2] != ' '
    ensures !OccursAt(s, Separator, p)
  {
    if p + 3 <= |s| {
      var w := s[p..p + 3];
      assert w[0] == s[p] && w[1] == s[p + 1] && w[2] == s[p + 2];
    }
  }

  /** A line with two separators is skipped. */
  lemma TwoSeparatorsRejected()
    ensures !WellFormed("a - b - c")
  {
    var sep := Separator;
    forall q: nat | q < 1
      ensures !OccursAt("a" + sep, sep, q) && !OccursAt("b" + sep, sep, q)
    {
      NoSeparatorAt("a" + sep, q);
      NoSeparatorAt("b" + sep, q);
    }
    assert Join(["a", "b", "c"], sep) == "a - b - c";
    SplitUnique(["a", "b", "c"], "a - b - c", sep);
  }

  /** A dash without the spaces around it is no separator. */
  lemma BareDashRejected()
    ensures !WellFormed("a-b")
  {
    var sep := Separator;
    forall q: nat | q <= 3
      ensures !OccursAt("a-b", sep, q)
    {
      NoSeparatorAt("a-b", q);
    }
    SplitUnique(["a-b"], "a-b", sep);
  }

  /** One separator makes a pair. */
  lemma OneSeparatorAccepted()
    ensures WellFormed("cat - meo")
  {
    var sep := Separator;
    forall q: nat | q < 3
      ensures !OccursAt("cat" + sep, sep, q)
    {
      NoSeparatorAt("cat" + sep, q);
    }
    forall q: nat | q <= 3
      ensures !OccursAt("meo", sep, q)
    {
      NoSeparatorAt("meo", q);
    }
    assert Join(["cat", "meo"], sep) == "cat - meo";
    SplitUnique(["cat", "meo"], "cat - meo", sep);
  }

  /** The id of the word on vocabulary line `index` of a file: the file
      name, `-word-`, and the index in decimal (script.js:147). */
  function WordId(filename: string, index: nat): string {
    filename + "-word-" + NatToString(index)
  }

  /** Different indices give different ids within one file. */
  lemma WordIdInjective(filename: string, i: nat, j: nat)
    requires WordId(filename, i) == WordId(filename, j)
    ensures i == j
  {
    assert filename + "-word-" + NatToString(i) == (filename + "-word-") + NatToString(i);
    assert filename + "-word-" + NatToString(j) == (filename + "-word-") + NatToString(j);
    CancelPrefix(filename + "-word-", NatToString(i), NatToString(j));
    NatToStringInjective(i, j);
  }

  /** What the parser makes of the vocabulary line at `index` among the
      lines after the title (script.js:141-152): a pair of the trimmed pieces when the line splits in two, nothing
      otherwise. */
  function ParseLine(filename: string, index: nat, line: string): Option<Pair> {
    var parts := Split(line, Separator);
    if |parts| == 2 then Some(Pair(Trim(parts[0]), Trim(parts[1]), WordId(filename, index)))
    else None
  }

  /** A line yields a pair exactly when it splits in two, and the pair holds
      the trimmed text on either side of the separator and the id of the
      line's index. */
  lemma ParseLineSpec(filename: string, index: nat, line: string)
    ensures ParseLine(filename, index, line).Some? <==> exists p: nat :: SplitsInTwoAt(line, p)
    ensures forall p: nat :: SplitsInTwoAt(line, p) ==>
              ParseLine(filename, index, line)
                == Some(Pair(Trim(line[..p]), Trim(line[p + |Separator|..]), WordId(filename, index)))
  {
    WellFormedIff(line);
  }

  /** The positions at or after `from` of the well-formed lines, in
      increasing order. */
  function GoodIndices(lines: seq<string>, from: nat): (idx: seq<nat>)
    requires from <= |lines|
    decreases |lines| - from
    ensures forall k :: 0 <= k < |idx| ==> from <= idx[k] < |lines|
    ensures forall k, m :: 0 <= k < m < |idx| ==> idx[k] < idx[m]
    ensures forall i :: from <= i < |lines| && WellFormed(lines[i]) ==> i in idx
  {
    if from == |lines| then []
    else (if WellFormed(lines[from]) then [from] else []) + GoodIndices(lines, from + 1)
  }

  /** The vocabulary built from the lines at or after `from`: each line
      parsed, with the malformed ones dropped (script.js:141-152). It holds one pair per
      well-formed line, in line order, and each is the parse of its line
      at its own index. */
  function VocabFrom(filename: string, lines: seq<string>, from: nat): (vocab: seq<Pair>)
    requires from <= |lines|
    decreases |lines| - from
    ensures |vocab| == |GoodIndices(lines, from)|
    ensures forall k :: 0 <= k < |vocab| ==>
              ParseLine(filename, GoodIndices(lines, from)[k], lines[GoodIndices(lines, from)[k]])
                == Some(vocab[k])
  {
    if from == |lines| then []
    else
      var rest := VocabFrom(filename, lines, from + 1);
      var here := ParseLine(filename, from, lines[from]);
      var vocab := (if here.Some? then [here.value] else []) + rest;
      VocabStep(filename, lines, from, rest, vocab);
      vocab
  }

  lemma VocabStep(filename: string, lines: seq<string>, from: nat, rest: seq<Pair>, vocab: seq<Pair>)
    requires from < |lines|
    requires |rest| == |GoodIndices(lines, from + 1)|
    requires forall k :: 0 <= k < |rest| ==>
               ParseLine(filename, GoodIndices(lines, from + 1)[k], lines[GoodIndices(lines, from + 1)[k]])
                 == Some(rest[k])
    requires vocab == (if ParseLine(filename, from, lines[from]).Some?
                       then [ParseLine(filename, from, lines[from]).value] else []) + rest
    ensures |vocab| == |GoodIndices(lines, from)|
    ensures forall k :: 0 <= k < |vocab| ==>
              ParseLine(filename, GoodIndices(lines, from)[k], lines[GoodIndices(lines, from)[k]])
                == Some(vocab[k])
  {
    var idx := GoodIndices(lines, from);
    var idxRest := GoodIndices(lines, from + 1);
    var here := ParseLine(filename, from, lines[from]);
    if here.Some? {
      assert idx == [from] + idxRest;
      forall k | 0 <= k < |vocab|
        ensures ParseLine(filename, idx[k], lines[idx[k]]) == Some(vocab[k])
      {
        if k > 0 {
          assert idx[k] == idxRest[k - 1] && vocab[k] == rest[k - 1];
        }
      }
    } else {
      assert idx == idxRest;
    }
  }

  /** The vocabulary of the lines after the title, indexed from 0. */
  function Vocab(filename: string, lines: seq<string>): seq<Pair> {
    VocabFrom(filename, lines, 0)
  }

  /** The pairs of one file have pairwise distinct ids. */
  lemma VocabIdsDistinct(filename: string, lines: seq<string>)
    ensures DistinctIds(Vocab(filename, lines))
  {
    var vocab := Vocab(filename, lines);
    var idx := GoodIndices(lines, 0);
    forall i, j | 0 <= i < j < |vocab|
      ensures vocab[i].id != vocab[j].id
    {
      assert vocab[i].id == WordId(filename, idx[i]);
      assert vocab[j].id == WordId(filename, idx[j]);
      if vocab[i].id == vocab[j].id {
        WordIdInjective(filename, idx[i], idx[j]);
      }
    }
  }

  // ---------------------------------------------------------------------
  // Whole files
  // ---------------------------------------------------------------------

  /** The lesson in the text of file `filename`, or `None` when the file is
      skipped: no non-blank line at all, or a title but no well-formed
      vocabulary line. The title is the first non-blank line trimmed
      (never empty); the pairs come from the lines after it only. */
  function ParseLesson(filename: string, text: string): (r: Option<Lesson>)
    ensures r.Some? <==> |Lines(text)| > 0 && |GoodIndices(Lines(text)[1..], 0)| > 0
    ensures r.Some? ==>
              && r.value.title == Trim(Lines(text)[0]) && r.value.title != ""
              && r.value.vocab == Vocab(filename, Lines(text)[1..])
              && |r.value.vocab| > 0 && DistinctIds(r.value.vocab)
              && r.value.filename == filename && r.value.playCount == 0
  {
    var lines := Lines(text);
    if |lines| == 0 then None
    else
      assert lines[0] in lines;
      var vocab := Vocab(filename, lines[1..]);
      VocabIdsDistinct(filename, lines[1..]);
      if |vocab| > 0 then Some(Lesson(Trim(lines[0]), vocab, filename, 0))
      else None
  }

  /** The title of a lesson is the first non-blank line of its file,
      trimmed: blank lines before it are skipped, and nothing else is. */
  lemma TitleIsFirstNonBlankLine(filename: string, text: string, k: nat)
    requires FirstNonBlankAt(Split(text, Newline), k)
    requires ParseLesson(filename, text).Some?
    ensures ParseLesson(filename, text).value.title == Trim(Split(text, Newline)[k])
  {
    assert Lines(text)[0] == Split(text, Newline)[k];
  }

  // ---------------------------------------------------------------------
  // Writing a lesson file and reading it back
  // ---------------------------------------------------------------------

  /** Text that survives a line of a lesson file unchanged: no newline in
      it and no white space at either end. */
  ghost predicate Plain(s: string) {
    && (forall i :: 0 <= i < |s| ==> s[i] != '\n')
    && (s == [] || (!IsSpace(s[0]) && !IsSpace(s[|s| - 1])))
  }

  /** A pair whose line `english - vietnam` splits back into the same two
      texts: the English side neither holds a separator nor ends in one
      that runs into the written separator, and the Vietnamese side holds
      none. */
  ghost predicate WritablePair(p: Pair) {
    Plain(p.english) && Plain(p.vietnam) && Leftmost(p.english, Separator) && Free(p.vietnam, Separator)
  }

  /** A lesson as the parser produces it: a plain, non-empty title, at
      least one writable pair, the k-th pair with id
      `${filename}-word-${k}`, and no recorded play yet. */
  ghost predicate Writable(lesson: Lesson) {
    && Plain(lesson.title) && lesson.title != ""
    && |lesson.vocab| > 0 && lesson.playCount == 0
    && forall k :: 0 <= k < |lesson.vocab| ==>
         WritablePair(lesson.vocab[k]) && lesson.vocab[k].id == WordId(lesson.filename, k)
  }

  /** The vocabulary line of a pair. */
  function VocabLine(p: Pair): string {
    p.english + Separator + p.vietnam
  }

  /** The vocabulary lines of a whole lesson, in order. */
  function VocabLines(vocab: seq<Pair>): (lines: seq<string>)
    ensures |lines| == |vocab|
    ensures forall k :: 0 <= k < |vocab| ==> lines[k] == VocabLine(vocab[k])
  {
    seq(|vocab|, k requires 0 <= k < |vocab| => VocabLine(vocab[k]))
  }

  /** The file a lesson would be read from: the title line, then one
      `english - vietnam` line per pair. */
  function FormatLesson(lesson: Lesson): string {
    Join([lesson.title] + VocabLines(lesson.vocab), Newline)
  }

  /** A written pair line splits in two right after the English text. */
  lemma VocabLineSplits(p: Pair)
    requires WritablePair(p)
    ensures SplitsInTwoAt(VocabLine(p), |p.english|)
  {
    var sep := Separator;
    var line := VocabLine(p);
    assert line[|p.english|..|p.english| + |sep|] == sep;
    forall q: nat | q < |p.english|
      ensures !OccursAt(line, sep, q)
    {
      assert line[..|p.english| + |sep|] == p.english + sep;
      assert line[q..q + |sep|] == (p.english + sep)[q..q + |sep|];
      assert !OccursAt(p.english + sep, sep, q);
    }
    forall q: nat | |p.english| + |sep| <= q
      ensures !OccursAt(line, sep, q)
    {
      var d := q - |p.english| - |sep|;
      assert line[|p.english| + |sep|..] == p.vietnam;
      if q + |sep| <= |line| {
        assert line[q..q + |sep|] == p.vietnam[d..d + |sep|];
      }
      assert !OccursAt(p.vietnam, sep, d);
    }
  }

  /** When every line from `from` on is well formed, the good indices are
      all of them. */
  lemma AllGoodIndices(lines: seq<string>, from: nat)
    requires from <= |lines|
    requires forall i :: from <= i < |lines| ==> WellFormed(lines[i])
    ensures |GoodIndices(lines, from)| == |lines| - from
    ensures forall k :: 0 <= k < |lines| - from ==> GoodIndices(lines, from)[k] == from + k
  {
    GoodIndicesExact(lines, from);
    CoveringRun(GoodIndices(lines, from), from, |lines|);
  }

  /** A strictly increasing sequence of numbers in [from, n) that takes
      every value there is the run from, from + 1, ..., n - 1. */
  lemma CoveringRun(idx: seq<nat>, from: nat, n: nat)
    requires from <= n
    requires forall k :: 0 <= k < |idx| ==> from <= idx[k] < n
    requires forall k, m :: 0 <= k < m < |idx| ==> idx[k] < idx[m]
    requires forall v :: from <= v < n ==> v in idx
    ensures |idx| == n - from
    ensures forall k :: 0 <= k < n - from ==> idx[k] == from + k
  {
    forall k | 0 <= k < |idx|
      ensures idx[k] == from + k
    {
      CoveringRunAt(idx, from, n, k);
    }
    if |idx| > 0 {
      IncreasingFloor(idx, from, |idx| - 1);
    }
    if n > from {
      assert n - 1 in idx;
      var j :| 0 <= j < |idx| && idx[j] == n - 1;
      assert j == n - 1 - from;
    }
  }

  /** The floor of a strictly increasing sequence above `from`. */
  lemma {:induction false} IncreasingFloor(idx: seq<nat>, from: nat, k: nat)
    requires forall k :: 0 <= k < |idx| ==> from <= idx[k]
    requires forall k, m :: 0 <= k < m < |idx| ==> idx[k] < idx[m]
    requires k < |idx|
    ensures from + k <= idx[k]
    decreases k
  {
    if k > 0 {
      IncreasingFloor(idx, from, k - 1);
    }
  }

  lemma {:induction false} CoveringRunAt(idx: seq<nat>, from: nat, n: nat, k: nat)
    requires forall k :: 0 <= k < |idx| ==> from <= idx[k] < n
    requires forall k, m :: 0 <= k < m < |idx| ==> idx[k] < idx[m]
    requires forall v :: from <= v < n ==> v in idx
    requires k < |idx|
    ensures idx[k] == from + k
    decreases k
  {
    IncreasingFloor(idx, from, k);
    assert from + k in idx;
    var j :| 0 <= j < |idx| && idx[j] == from + k;
    if k > 0 {
      CoveringRunAt(idx, from, n, k - 1);
    }
    assert k <= j;
  }

  /** The indices picked from `from` on are exactly those of the
      well-formed lines. */
  lemma {:induction false} GoodIndicesExact(lines: seq<string>, from: nat)
    requires from <= |lines|
    ensures forall i :: from <= i < |lines| ==> (i in GoodIndices(lines, from) <==> WellFormed(lines[i]))
    decreases |lines| - from
  {
    if from < |lines| {
      GoodIndicesExact(lines, from + 1);
      var rest := GoodIndices(lines, from + 1);
      assert GoodIndices(lines, from) == (if WellFormed(lines[from]) then [from] else []) + rest;
      assert from !in rest;
    }
  }

  /** What the parser sees of one written pair line: one line, not blank,
      well formed, and parsed back into the pair's own texts. */
  lemma VocabLineFacts(f: string, k: nat, p: Pair)
    requires WritablePair(p)
    ensures WellFormed(VocabLine(p)) && !AllSpace(VocabLine(p))
    ensures forall i :: 0 <= i < |VocabLine(p)| ==> VocabLine(p)[i] != '\n'
    ensures ParseLine(f, k, VocabLine(p)) == Some(Pair(p.english, p.vietnam, WordId(f, k)))
  {
    VocabLineShape(p);
    VocabLineParses(f, k, p);
  }

  lemma VocabLineShape(p: Pair)
    requires WritablePair(p)
    ensures !AllSpace(VocabLine(p))
    ensures forall i :: 0 <= i < |VocabLine(p)| ==> VocabLine(p)[i] != '\n'
  {
    var line := VocabLine(p);
    assert line[|p.english| + 1] == '-';
    forall i | 0 <= i < |line|
      ensures line[i] != '\n'
    {
      if i < |p.english| {
        assert line[i] == p.english[i];
      } else if i >= |p.english| + 3 {
        assert line[i] == p.vietnam[i - |p.english| - 3];
      }
    }
  }

  lemma VocabLineParses(f: string, k: nat, p: Pair)
    requires WritablePair(p)
    ensures WellFormed(VocabLine(p))
    ensures ParseLine(f, k, VocabLine(p)) == Some(Pair(p.english, p.vietnam, WordId(f, k)))
  {
    var line := VocabLine(p);
    var cut := |p.english|;
    VocabLineSplits(p);
    WellFormedIff(line);
    assert line[..cut] == p.english;
    assert line[cut + |Separator|..] == p.vietnam;
    TrimTrimmed(p.english);
    TrimTrimmed(p.vietnam);
    ParseLineSpec(f, k, line);
    assert ParseLine(f, k, line)
        == Some(Pair(Trim(line[..cut]), Trim(line[cut + |Separator|..]), WordId(f, k)));
  }

  /** The non-blank lines of a written lesson are its title and its pair
      lines. */
  lemma FormatLines(lesson: Lesson)
    requires Writable(lesson)
    ensures Lines(FormatLesson(lesson)) == [lesson.title] + VocabLines(lesson.vocab)
  {
    var body := VocabLines(lesson.vocab);
    var raw := [lesson.title] + body;
    forall k | 0 <= k < |raw|
      ensures forall i :: 0 <= i < |raw[k]| ==> raw[k][i] != '\n'
      ensures !IsBlank(raw[k])
    {
      BlankIffAllSpace(raw[k]);
      if k > 0 {
        assert raw[k] == body[k - 1];
        assert WritablePair(lesson.vocab[k - 1]);
        VocabLineFacts(lesson.filename, k - 1, lesson.vocab[k - 1]);
      }
    }
    SplitOnChar(raw, '\n');
    NonBlankLinesKeepsAll(raw);
  }

  /** The pair lines of a written lesson parse back into its vocabulary. */
  lemma FormatVocab(lesson: Lesson)
    requires Writable(lesson)
    ensures Vocab(lesson.filename, VocabLines(lesson.vocab)) == lesson.vocab
  {
    var body := VocabLines(lesson.vocab);
    FormatPairLines(lesson);
    VocabOfGoodLines(lesson.filename, body, lesson.vocab);
  }

  lemma FormatPairLines(lesson: Lesson)
    requires Writable(lesson)
    ensures forall k :: 0 <= k < |lesson.vocab| ==>
              && WellFormed(VocabLines(lesson.vocab)[k])
              && ParseLine(lesson.filename, k, VocabLines(lesson.vocab)[k]) == Some(lesson.vocab[k])
  {
    var f := lesson.filename;
    var vocab := lesson.vocab;
    forall k | 0 <= k < |vocab|
      ensures WellFormed(VocabLines(vocab)[k])
      ensures ParseLine(f, k, VocabLines(vocab)[k]) == Some(vocab[k])
    {
      assert WritablePair(vocab[k]) && vocab[k].id == WordId(f, k);
      VocabLineParses(f, k, vocab[k]);
    }
  }

  /** Lines that are all well formed parse into one pair each, in order. */
  lemma VocabOfGoodLines(f: string, lines: seq<string>, vocab: seq<Pair>)
    requires |lines| == |vocab|
    requires forall k :: 0 <= k < |lines| ==>
               WellFormed(lines[k]) && ParseLine(f, k, lines[k]) == Some(vocab[k])
    ensures Vocab(f, lines) == vocab
  {
    AllGoodIndices(lines, 0);
    var parsed := Vocab(f, lines);
    forall k | 0 <= k < |vocab|
      ensures parsed[k] == vocab[k]
    {
      assert GoodIndices(lines, 0)[k] == k;
    }
  }

  /** Reading back a written lesson gives the same lesson. */
  lemma ParseFormatRoundTrip(lesson: Lesson)
    requires Writable(lesson)
    ensures ParseLesson(lesson.filename, FormatLesson(lesson)) == Some(lesson)
  {
    FormatLines(lesson);
    FormatVocab(lesson);
    var lines := Lines(FormatLesson(lesson));
    assert lines[1..] == VocabLines(lesson.vocab);
    TrimTrimmed(lesson.title);
  }
}
