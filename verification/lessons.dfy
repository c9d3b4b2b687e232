/** The records the game works on: a vocabulary pair
    `{english, vietnam, id}` and a lesson
    `{title, vocab, filename, playCount}` (script.js:8, 144-148, 155-160). */
module Lessons {

  /** One vocabulary item. `id` is what the game compares when two cards
      are picked; the texts are only shown. */
  datatype Pair = Pair(english: string, vietnam: string, id: string)

  /** One lesson file after parsing, with the number of times the learner
      has completed it. */
  datatype Lesson = Lesson(title: string, vocab: seq<Pair>, filename: string, playCount: int)

  /** No two pairs of the vocabulary share an id. */
  ghost predicate DistinctIds(vocab: seq<Pair>) {
    forall i, j :: 0 <= i < j < |vocab| ==> vocab[i].id != vocab[j].id
  }

  /** The ids the vocabulary uses. */
  function Ids(vocab: seq<Pair>): set<string> {
    set p | p in vocab :: p.id
  }

  /** With distinct ids there are exactly as many ids as pairs. */
  lemma {:induction false} IdsCount(vocab: seq<Pair>)
    requires DistinctIds(vocab)
    ensures |Ids(vocab)| == |vocab|
  {
    if vocab != [] {
      var rest := vocab[1..];
      assert DistinctIds(rest) by {
        forall i, j | 0 <= i < j < |rest|
          ensures rest[i].id != rest[j].id
        {
          assert rest[i] == vocab[i + 1] && rest[j] == vocab[j + 1];
        }
      }
      IdsCount(rest);
      assert Ids(vocab) == {vocab[0].id} + Ids(rest) by {
        assert vocab == [vocab[0]] + rest;
      }
      assert vocab[0].id !in Ids(rest) by {
        forall p | p in rest
          ensures p.id != vocab[0].id
        {
          var j :| 0 <= j < |rest| && rest[j] == p;
          assert p == vocab[j + 1];
        }
      }
    }
  }
}
