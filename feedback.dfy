/** Per-letter feedback on a guess, as `display_guesses` colours it. */
module Feedback {

  /** The three colours of a letter: green, yellow and red. */
  datatype Mark = Exact | Present | Absent

  /**
   * The mark of the letter at `pos` of `guess` against the secret `word`: EXACT when the
   * secret has the same letter there, otherwise PRESENT when the letter occurs anywhere in
   * the secret (no counting of repeated letters), otherwise ABSENT. The secret must have a
   * letter at `pos`, or the source's `nth(pos).unwrap()` panics.
   */
  function Classify(word: string, guess: string, pos: nat): (m: Mark)
    requires pos < |guess| && pos < |word|
    ensures m == Exact <==> guess[pos] == word[pos]
    ensures m == Absent <==> guess[pos] !in word
  {
    if word[pos] == guess[pos] then Exact
    else if guess[pos] in word then Present
    else Absent
  }

  /** The row of marks shown for one guess. */
  function Score(word: string, guess: string): (marks: seq<Mark>)
    requires |guess| <= |word|
    ensures |marks| == |guess|
  {
    seq(|guess|, pos requires 0 <= pos < |guess| => Classify(word, guess, pos))
  }

  /** The letters of `guess` that occur nowhere in `word`. */
  function AbsentLetters(word: string, guess: string): set<char>
  {
    set c | c in guess && c !in word
  }

  /** The absent letters of every guess in `guesses`. */
  function AbsentIn(word: string, guesses: seq<string>): set<char>
  {
    if guesses == [] then {}
    else AbsentIn(word, guesses[..|guesses| - 1]) + AbsentLetters(word, guesses[|guesses| - 1])
  }

  /** A letter is marked PRESENT exactly when it is misplaced but occurs in the secret. */
  lemma PresentMeaning(word: string, guess: string, pos: nat)
    requires pos < |guess| && pos < |word|
    ensures Classify(word, guess, pos) == Present <==> guess[pos] != word[pos] && guess[pos] in word
  {
  }

  /** Guessing the secret itself marks every letter EXACT. */
  lemma ScoreOfSecret(word: string)
    ensures forall pos :: 0 <= pos < |word| ==> Score(word, word)[pos] == Exact
  {
  }

  /** For a guess as long as the secret, every mark is EXACT if and only if the guess is the secret. */
  lemma AllExactIffSecret(word: string, guess: string)
    requires |guess| == |word|
    ensures (forall pos :: 0 <= pos < |guess| ==> Score(word, guess)[pos] == Exact) <==> guess == word
  {
    if forall pos :: 0 <= pos < |guess| ==> Score(word, guess)[pos] == Exact {
      forall pos | 0 <= pos < |guess| ensures guess[pos] == word[pos] {
        assert Score(word, guess)[pos] == Exact;
        assert Classify(word, guess, pos) == Exact;
      }
    }
  }

  /** The letters marked ABSENT in a row are exactly the guess's letters that do not occur in the secret. */
  lemma AbsentMarksAreAbsentLetters(word: string, guess: string)
    requires |guess| <= |word|
    ensures (set pos | 0 <= pos < |guess| && Score(word, guess)[pos] == Absent :: guess[pos]) == AbsentLetters(word, guess)
  {
    var marked := set pos | 0 <= pos < |guess| && Score(word, guess)[pos] == Absent :: guess[pos];
    forall c | c in AbsentLetters(word, guess) ensures c in marked {
      var pos :| 0 <= pos < |guess| && guess[pos] == c;
      assert Score(word, guess)[pos] == Absent;
    }
  }

  /** A letter is among the absent letters of a list of guesses exactly when some guess has it and the secret does not. */
  lemma {:induction false} AbsentInMeaning(word: string, guesses: seq<string>, c: char)
    ensures c in AbsentIn(word, guesses) <==> c !in word && exists k :: 0 <= k < |guesses| && c in guesses[k]
    decreases |guesses|
  {
    if guesses != [] {
      var init := guesses[..|guesses| - 1];
      AbsentInMeaning(word, init, c);
      if c !in word && c in guesses[|guesses| - 1] {
        assert c in AbsentLetters(word, guesses[|guesses| - 1]);
      }
      if exists k :: 0 <= k < |init| && c in init[k] {
        var k :| 0 <= k < |init| && c in init[k];
        assert guesses[k] == init[k];
      }
      if exists k :: 0 <= k < |guesses| && c in guesses[k] {
        var k :| 0 <= k < |guesses| && c in guesses[k];
        if k < |init| {
          assert init[k] == guesses[k];
        }
      }
    }
  }

  /** The absent letters of a list of guesses never occur in the secret. */
  lemma AbsentInDisjoint(word: string, guesses: seq<string>)
    ensures forall c :: c in AbsentIn(word, guesses) ==> c !in word
  {
    forall c | c in AbsentIn(word, guesses) ensures c !in word {
      AbsentInMeaning(word, guesses, c);
    }
  }

  /** Looking at one more letter of a guess adds it to the absent letters exactly when the secret lacks it. */
  lemma AbsentLettersStep(word: string, guess: string, pos: nat)
    requires pos < |guess|
    ensures AbsentLetters(word, guess[..pos + 1])
      == AbsentLetters(word, guess[..pos]) + if guess[pos] in word then {} else {guess[pos]}
  {
    assert guess[..pos + 1] == guess[..pos] + [guess[pos]];
  }

  /** Adding a guess only adds absent letters. */
  lemma AbsentInGrows(word: string, guesses: seq<string>, guess: string)
    ensures AbsentIn(word, guesses + [guess]) == AbsentIn(word, guesses) + AbsentLetters(word, guess)
  {
    assert (guesses + [guess])[..|guesses|] == guesses;
  }

  /** The two rows worked through for the secret CRANE: TRACE, and EERIE with its repeated E. */
  lemma ScoreExamples()
    ensures Score("CRANE", "CRANE") == [Exact, Exact, Exact, Exact, Exact]
    ensures Score("CRANE", "TRACE") == [Absent, Exact, Exact, Present, Exact]
    ensures Score("CRANE", "EERIE") == [Present, Present, Present, Absent, Exact]
  {
    var secret := "CRANE";
    assert secret[0] == 'C' && secret[1] == 'R' && secret[2] == 'A' && secret[4] == 'E';
    assert 'T' !in secret && 'I' !in secret;
    var trace := Score(secret, "TRACE");
    assert trace[3] == Present;
  }
}
