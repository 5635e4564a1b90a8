/**
 * `is_question` and `enhance_questions` of server.py: detecting a question
 * mark, and lengthening the pause before each closing question mark by
 * inserting an ellipsis.
 */
module Questions {

  /**
   * `is_question`: the search for `[¿?]` succeeds, that is, some character is
   * an opening or a closing question mark; a text it rejects is one that
   * `enhance_questions` leaves alone.
   */
  function IsQuestion(s: seq<char>): (b: bool)
    ensures b <==> exists k | 0 <= k < |s| :: s[k] == '¿' || s[k] == '?'
    ensures !b ==> EnhanceQuestions(s) == s
  {
    if '¿' in s || '?' in s then true
    else
      NoQuestionUnchanged(s, 0);
      assert s[0..] == s;
      false
  }

  /** Characters after which a question mark is left alone. */
  predicate Stop(c: char) {
    c == '.' || c == '?' || c == '!'
  }

  /** Every question mark that has a predecessor has a stop before it. */
  ghost predicate QuestionsPaused(s: seq<char>) {
    forall p | 0 < p < |s| && s[p] == '?' :: Stop(s[p - 1])
  }

  /**
   * `re.sub(r'([^.?!])[?]', r'\1...?', text)` on the suffix of `s` from `i`:
   * a character that is not a stop, followed by `?`, is kept and "..." goes
   * between them; the match consumes both, so scanning resumes after the `?`.
   */
  function EnhanceQuestionsFrom(s: seq<char>, i: nat): (r: seq<char>)
    requires i <= |s|
    ensures |r| == 0 <==> i == |s|
    ensures i < |s| ==> r[0] == s[i]
    ensures QuestionsPaused(r)
    decreases |s| - i
  {
    if i == |s| then []
    else if i + 1 < |s| && !Stop(s[i]) && s[i + 1] == '?' then
      var rest := EnhanceQuestionsFrom(s, i + 2);
      var r := [s[i]] + "...?" + rest;
      assert forall p | 5 <= p < |r| :: r[p] == rest[p - 5];
      r
    else
      var rest := EnhanceQuestionsFrom(s, i + 1);
      var r := [s[i]] + rest;
      assert forall p | 1 <= p < |r| :: r[p] == rest[p - 1];
      r
  }

  /**
   * `enhance_questions`: afterwards every question mark follows a stop, and
   * the result is the text with "..." inserted before exactly the question
   * marks that did not.
   */
  function EnhanceQuestions(s: seq<char>): (r: seq<char>)
    ensures QuestionsPaused(r)
    ensures r == InsertDotsFrom(s, 0)
  {
    EnhanceMatchesReference(s, 0);
    EnhanceQuestionsFrom(s, 0)
  }

  /** The regular expression finds a match ending at the question mark at `p`. */
  predicate InsertionAt(s: seq<char>, p: nat) {
    0 < p < |s| && s[p] == '?' && !Stop(s[p - 1])
  }

  /**
   * Reference reading of the substitution, one character at a time: "..." is
   * inserted before exactly the question marks whose predecessor is not a stop.
   */
  function InsertDotsFrom(s: seq<char>, p: nat): seq<char>
    requires p <= |s|
    decreases |s| - p
  {
    if p == |s| then []
    else (if InsertionAt(s, p) then "..." else []) + [s[p]] + InsertDotsFrom(s, p + 1)
  }

  /**
   * The scan agrees with the character-by-character reading: matches never
   * overlap in a way that matters, because a consumed `?` is itself a stop.
   */
  lemma {:induction false} EnhanceMatchesReference(s: seq<char>, i: nat)
    requires i <= |s|
    requires !InsertionAt(s, i)
    ensures EnhanceQuestionsFrom(s, i) == InsertDotsFrom(s, i)
    decreases |s| - i
  {
    if i < |s| {
      if i + 1 < |s| && !Stop(s[i]) && s[i + 1] == '?' {
        var rest := InsertDotsFrom(s, i + 2);
        calc {
          EnhanceQuestionsFrom(s, i);
          [s[i]] + "...?" + EnhanceQuestionsFrom(s, i + 2);
          == { EnhanceMatchesReference(s, i + 2); }
          [s[i]] + "...?" + rest;
          == { assert "...?" == "..." + [s[i + 1]]; }
          [s[i]] + ("..." + [s[i + 1]] + rest);
          == { assert InsertionAt(s, i + 1); }
          [s[i]] + InsertDotsFrom(s, i + 1);
        }
      } else {
        EnhanceMatchesReference(s, i + 1);
      }
    }
  }

  /** On a text where every question mark already follows a stop, nothing matches. */
  lemma {:induction false} PausedUnchanged(s: seq<char>, i: nat)
    requires i <= |s|
    requires QuestionsPaused(s)
    ensures EnhanceQuestionsFrom(s, i) == s[i..]
    decreases |s| - i
  {
    if i < |s| {
      assert !(i + 1 < |s| && !Stop(s[i]) && s[i + 1] == '?');
      PausedUnchanged(s, i + 1);
      assert s[i..] == [s[i]] + s[i + 1..];
    }
  }

  /** Applying `enhance_questions` twice is the same as applying it once. */
  lemma EnhanceIdempotent(s: seq<char>)
    ensures EnhanceQuestions(EnhanceQuestions(s)) == EnhanceQuestions(s)
  {
    var r := EnhanceQuestions(s);
    PausedUnchanged(r, 0);
    assert r[0..] == r;
  }

  /** Text without a closing question mark is left as it is. */
  lemma {:induction false} NoQuestionUnchanged(s: seq<char>, i: nat)
    requires i <= |s|
    requires '?' !in s
    ensures EnhanceQuestionsFrom(s, i) == s[i..]
    decreases |s| - i
  {
    if i < |s| {
      assert i + 1 < |s| ==> s[i + 1] != '?';
      NoQuestionUnchanged(s, i + 1);
      assert s[i..] == [s[i]] + s[i + 1..];
    }
  }

  /** Where no match ends, the reference reading copies the text. */
  lemma {:induction false} CopiedUntil(s: seq<char>, p: nat, k: nat)
    requires p <= k <= |s|
    requires forall q | p <= q < k :: s[q] != '?'
    ensures InsertDotsFrom(s, p) == s[p..k] + InsertDotsFrom(s, k)
    decreases k - p
  {
    if p < k {
      assert s[p] != '?';
      assert !InsertionAt(s, p);
      assert InsertDotsFrom(s, p) == [s[p]] + InsertDotsFrom(s, p + 1);
      CopiedUntil(s, p + 1, k);
      assert s[p..k] == [s[p]] + s[p + 1..k];
    } else {
      assert s[p..k] == [];
    }
  }

  /** The reference reading of the documented example. */
  lemma ExampleInsertion(s: seq<char>)
    requires s == "¿Cómo estás?"
    ensures InsertDotsFrom(s, 0) == "¿Cómo estás...?"
  {
    assert forall q | 0 <= q < 11 :: s[q] != '?';
    CopiedUntil(s, 0, 11);
    assert InsertDotsFrom(s, 11) == "...?";
    assert s[0..11] == "¿Cómo estás";
  }

  /** The documented example: "¿Cómo estás?" becomes "¿Cómo estás...?". */
  lemma SpanishExample(s: seq<char>)
    requires s == "¿Cómo estás?"
    ensures EnhanceQuestions(s) == "¿Cómo estás...?"
  {
    ExampleInsertion(s);
  }
}
