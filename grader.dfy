/**
 * Grading in `submit_quiz`: the stored questions become an answer key
 * `{"q0": "A", "q1": "C", ...}` and every submitted `{"q": ..., "ans": ...}`
 * entry whose `f"q{q}"` is a key and whose `ans` equals the stored letter
 * adds one to the score.
 */
module Grader {
  import opened AsciiText
  import opened QuizParser

  /** A value `json.loads` produced, as far as grading can tell values apart:
      an integer, a string, or anything else (a float, `true`/`false`,
      `null`, an array or an object), carried with the text `str()` gives
      for it. */
  datatype Json = JInt(i: int) | JStr(s: string) | JOther(repr: string)

  /** One element of the parsed answer list, a dictionary with keys `q` and
      `ans`. */
  datatype Entry = Entry(q: Json, ans: Json)

  /** The text `f"{v}"` formats a value as. */
  function Format(v: Json): string {
    match v
    case JInt(i) => IntToDecimal(i)
    case JStr(s) => s
    case JOther(r) => r
  }

  /** The key `f"q{idx}"` of position `idx`. */
  function IndexKey(idx: nat): string {
    "q" + NatToDecimal(idx)
  }

  /** The key a submitted index is looked up under. */
  function KeyOf(v: Json): string {
    "q" + Format(v)
  }

  lemma IndexKeyInjective(a: nat, b: nat)
    requires IndexKey(a) == IndexKey(b)
    ensures a == b
  {
    assert NatToDecimal(a) == IndexKey(a)[1..];
    assert NatToDecimal(b) == IndexKey(b)[1..];
    NatToDecimalInjective(a, b);
  }

  /** The dictionary comprehension over `enumerate(correct_questions)`: one key
      per position, holding that question's answer letter, and no other
      keys. */
  function AnswerKey(qs: seq<Question>): (m: map<string, char>)
    ensures forall idx :: 0 <= idx < |qs| ==> IndexKey(idx) in m && m[IndexKey(idx)] == qs[idx].answer
    ensures forall k :: k in m ==> exists idx :: 0 <= idx < |qs| && k == IndexKey(idx)
  {
    if qs == [] then map[]
    else
      var n := |qs| - 1;
      var m := AnswerKey(qs[..n]);
      var r := m[IndexKey(n) := qs[n].answer];
      assert forall idx :: 0 <= idx < |qs| ==> IndexKey(idx) in r && r[IndexKey(idx)] == qs[idx].answer by {
        forall idx | 0 <= idx < |qs| ensures IndexKey(idx) in r && r[IndexKey(idx)] == qs[idx].answer {
          if idx < n {
            assert qs[..n][idx] == qs[idx];
            if IndexKey(idx) == IndexKey(n) {
              IndexKeyInjective(idx, n);
            }
          }
        }
      }
      assert forall k :: k in r ==> exists idx :: 0 <= idx < |qs| && k == IndexKey(idx) by {
        forall k | k in r ensures exists idx :: 0 <= idx < |qs| && k == IndexKey(idx) {
          if k != IndexKey(n) {
            var idx :| 0 <= idx < n && k == IndexKey(idx);
          }
        }
      }
      r
  }

  /** Whether one submitted entry earns a point: its key names a position and
      its `ans` is exactly the stored one-letter string. */
  predicate Hits(qs: seq<Question>, e: Entry) {
    var key := AnswerKey(qs);
    KeyOf(e.q) in key && e.ans == JStr([key[KeyOf(e.q)]])
  }

  /** The positions below `n` of the submission that earn a point. */
  function HitsBelow(qs: seq<Question>, entries: seq<Entry>, n: nat): set<nat>
    requires n <= |entries|
  {
    set j | 0 <= j < n && Hits(qs, entries[j])
  }

  /** The number of submitted entries that earn a point. */
  function CorrectCount(qs: seq<Question>, entries: seq<Entry>): nat {
    |HitsBelow(qs, entries, |entries|)|
  }

  /** One more position adds itself exactly when its entry hits. */
  lemma HitsBelowStep(qs: seq<Question>, entries: seq<Entry>, n: nat)
    requires n < |entries|
    ensures HitsBelow(qs, entries, n + 1) ==
              HitsBelow(qs, entries, n) + (if Hits(qs, entries[n]) then {n} else {})
  {
  }

  /** The grading loop: `total` is the number of stored questions and `score`
      the number of submitted entries that earn a point, repeats included. */
  method Grade(qs: seq<Question>, entries: seq<Entry>) returns (score: nat, total: nat)
    ensures total == |qs|
    ensures score == |set j | 0 <= j < |entries| && Hits(qs, entries[j])|
  {
    score := 0;
    total := |qs|;
    var key := AnswerKey(qs);
    var i := 0;
    while i < |entries|
      invariant 0 <= i <= |entries|
      invariant score == |HitsBelow(qs, entries, i)|
    {
      var e := entries[i];
      HitsBelowStep(qs, entries, i);
      if KeyOf(e.q) in key && e.ans == JStr([key[KeyOf(e.q)]]) {
        assert i !in HitsBelow(qs, entries, i);
        score := score + 1;
      }
      i := i + 1;
    }
  }

  // ---------------------------------------------------------------------
  // Properties
  // ---------------------------------------------------------------------

  /** A key names a position exactly when the index formats as that
      position's decimal numeral. */
  lemma KeyNamesPosition(qs: seq<Question>, v: Json)
    ensures KeyOf(v) in AnswerKey(qs) <==>
              exists idx :: 0 <= idx < |qs| && Format(v) == NatToDecimal(idx)
  {
    var key := AnswerKey(qs);
    if KeyOf(v) in key {
      var idx :| 0 <= idx < |qs| && KeyOf(v) == IndexKey(idx);
      assert Format(v) == NatToDecimal(idx) by {
        assert KeyOf(v)[1..] == Format(v);
        assert IndexKey(idx)[1..] == NatToDecimal(idx);
      }
    }
    forall idx | 0 <= idx < |qs| && Format(v) == NatToDecimal(idx) ensures KeyOf(v) in key {
      assert KeyOf(v) == IndexKey(idx);
    }
  }

  /** An integer index earns a point exactly when it is a position of the quiz
      and the answer is that question's letter: negative and out-of-range
      indices never count. */
  lemma IntIndexHits(qs: seq<Question>, i: int, ans: Json)
    ensures Hits(qs, Entry(JInt(i), ans)) <==> 0 <= i < |qs| && ans == JStr([qs[i].answer])
  {
    var v := JInt(i);
    KeyNamesPosition(qs, v);
    if i < 0 {
      forall idx | 0 <= idx < |qs| ensures Format(v) != NatToDecimal(idx) {
        assert Format(v)[0] == '-';
      }
    } else {
      forall idx | 0 <= idx < |qs| && Format(v) == NatToDecimal(idx) ensures idx == i {
        NatToDecimalInjective(i, idx);
      }
      if i < |qs| {
        assert KeyOf(v) == IndexKey(i);
      }
    }
  }

  /** A string index such as `"1"` is looked up under the same key as the
      integer it spells. */
  lemma StringIndexHits(qs: seq<Question>, idx: nat, ans: Json)
    ensures Hits(qs, Entry(JStr(NatToDecimal(idx)), ans)) == Hits(qs, Entry(JInt(idx), ans))
  {
  }

  /** Only the exact one-letter string matches: a lower-case letter never
      earns a point, since every stored answer is upper-case. */
  lemma LowercaseAnswerNeverHits(qs: seq<Question>, q: Json, c: char)
    requires forall k :: 0 <= k < |qs| ==> WellFormed(qs[k])
    requires 'a' <= c <= 'z'
    ensures !Hits(qs, Entry(q, JStr([c])))
  {
    var key := AnswerKey(qs);
    if KeyOf(q) in key {
      var idx :| 0 <= idx < |qs| && KeyOf(q) == IndexKey(idx);
      assert key[KeyOf(q)] == qs[idx].answer;
    }
  }

  /** Appending an entry adds one point exactly when that entry hits. */
  lemma CorrectCountSnoc(qs: seq<Question>, entries: seq<Entry>, e: Entry)
    ensures CorrectCount(qs, entries + [e]) == CorrectCount(qs, entries) + (if Hits(qs, e) then 1 else 0)
  {
    var es := entries + [e];
    var n := |entries|;
    assert HitsBelow(qs, es, n) == HitsBelow(qs, entries, n) by {
      assert forall j :: 0 <= j < n ==> es[j] == entries[j];
    }
    HitsBelowStep(qs, es, n);
    assert n !in HitsBelow(qs, es, n);
  }

  /** The score never exceeds the number of submitted entries. */
  lemma {:induction false} CorrectCountBound(qs: seq<Question>, entries: seq<Entry>)
    ensures CorrectCount(qs, entries) <= |entries|
  {
    if entries == [] {
      assert HitsBelow(qs, entries, 0) == {};
    } else {
      var init := entries[..|entries| - 1];
      CorrectCountBound(qs, init);
      CorrectCountSnoc(qs, init, entries[|entries| - 1]);
      assert init + [entries[|entries| - 1]] == entries;
    }
  }

  /** Repeated entries count again: answering question 0 correctly `k` times
      scores `k`, so the score can exceed the total. */
  lemma {:induction false} RepeatsCountAgain(qs: seq<Question>, k: nat)
    requires |qs| > 0
    ensures var e := Entry(JInt(0), JStr([qs[0].answer]));
            CorrectCount(qs, seq(k, _ => e)) == k
  {
    var e := Entry(JInt(0), JStr([qs[0].answer]));
    IntIndexHits(qs, 0, e.ans);
    if k > 0 {
      RepeatsCountAgain(qs, k - 1);
      assert seq(k, _ => e) == seq(k - 1, _ => e) + [e];
      CorrectCountSnoc(qs, seq(k - 1, _ => e), e);
    } else {
      assert HitsBelow(qs, seq(0, _ => e), 0) == {};
    }
  }

  /** A quiz of `n` questions answered `n + 1` times at question 0 scores more
      than its total. */
  lemma ScoreCanExceedTotal(qs: seq<Question>)
    requires |qs| > 0
    ensures exists entries :: CorrectCount(qs, entries) > |qs|
  {
    var e := Entry(JInt(0), JStr([qs[0].answer]));
    RepeatsCountAgain(qs, |qs| + 1);
    assert CorrectCount(qs, seq(|qs| + 1, _ => e)) > |qs|;
  }

  /** The submission that answers question `j` with its stored letter, for
      every `j` below `n`. */
  function AllCorrect(qs: seq<Question>, n: nat): (es: seq<Entry>)
    requires n <= |qs|
    ensures |es| == n
    ensures forall j :: 0 <= j < n ==> es[j] == Entry(JInt(j), JStr([qs[j].answer]))
  {
    if n == 0 then [] else AllCorrect(qs, n - 1) + [Entry(JInt(n - 1), JStr([qs[n - 1].answer]))]
  }

  /** Answering every question once with its stored letter scores exactly the
      total. */
  lemma {:induction false} PerfectScore(qs: seq<Question>, n: nat)
    requires n <= |qs|
    ensures CorrectCount(qs, AllCorrect(qs, n)) == n
  {
    if n > 0 {
      var e := Entry(JInt(n - 1), JStr([qs[n - 1].answer]));
      PerfectScore(qs, n - 1);
      IntIndexHits(qs, n - 1, e.ans);
      CorrectCountSnoc(qs, AllCorrect(qs, n - 1), e);
    } else {
      assert HitsBelow(qs, [], 0) == {};
    }
  }

}
