/** Worked examples of the matcher on concrete patterns, questions and a
    two-intent sample catalog. Each concrete fact is its own small lemma so
    that the verifier never has to unfold `Words` and `Occurs` on long
    literals at once. */
module AppExamples {
  import opened PyStr
  import opened App
  import opened AppProperties

  /** One word of the pattern in the text is enough. */
  lemma MatchByWord(pattern: string, text: string, k: nat)
    requires k < |Words(pattern)| && Occurs(Words(pattern)[k], text)
    ensures PatternMatches(pattern, text)
  {
  }

  /** No word of the pattern in the text: no match. */
  lemma MissByWords(pattern: string, ws: seq<string>, text: string)
    requires Words(pattern) == ws
    requires forall k :: 0 <= k < |ws| ==> !Occurs(ws[k], text)
    ensures !PatternMatches(pattern, text)
  {
  }

  /** A one-pattern intent matches exactly when its pattern does. */
  lemma SinglePatternIntent(intent: Intent, text: string)
    requires |intent.patterns| == 1
    ensures IntentMatches(intent, text) <==> PatternMatches(intent.patterns[0], text)
  {
  }

  lemma OccursAtWitness(w: string, s: string, i: nat)
    requires i + |w| <= |s| && s[i..i + |w|] == w
    ensures Occurs(w, s)
  {
    assert OccursAt(w, s, i);
  }

  /** A character of `w` that `s` lacks keeps `w` out of `s`. */
  lemma MissingCharNeverOccurs(w: string, s: string, k: nat)
    requires k < |w| && w[k] !in s
    ensures !Occurs(w, s)
  {
    forall i | 0 <= i <= |s| - |w| ensures !OccursAt(w, s, i) {
      assert s[i..i + |w|][k] == s[i + k];
    }
  }

  lemma WordsOfMalariaSymptoms()
    ensures Words("malaria symptoms") == ["malaria", "symptoms"]
  {
    WordsOfJoin(["malaria", "symptoms"]);
    assert Join(["malaria", "symptoms"]) == "malaria symptoms";
  }

  lemma WordsOfFeverSymptoms()
    ensures Words("fever symptoms") == ["fever", "symptoms"]
  {
    WordsOfJoin(["fever", "symptoms"]);
    assert Join(["fever", "symptoms"]) == "fever symptoms";
  }

  lemma FluOccursInInfluenza()
    ensures PatternMatches("flu", "i have influenza")
  {
    WordsOfJoin(["flu"]);
    assert Join(["flu"]) == "flu";
    OccursAtWitness("flu", "i have influenza", 9);
    MatchByWord("flu", "i have influenza", 0);
  }

  lemma WordsOfInfluenzaInput()
    ensures Words("i have influenza") == ["i", "have", "influenza"]
  {
    WordsOfJoin(["i", "have", "influenza"]);
    assert Join(["i", "have", "influenza"]) == "i have influenza";
  }

  /** "flu" matches "I have Influenza" although no word of the input is
      "flu": the test is a substring test, not a whole-word test. */
  lemma FluMatchesInfluenza()
    ensures PatternMatches("flu", Lower("I have Influenza"))
    ensures "flu" !in Words(Lower("I have Influenza"))
  {
    LowerOfInfluenzaInput();
    FluOccursInInfluenza();
    WordsOfInfluenzaInput();
  }

  lemma LowerOfInfluenzaInput()
    ensures Lower("I have Influenza") == "i have influenza"
  {
  }

  /** The pattern "Fever" never matches, not even the input "Fever". */
  lemma CapitalisedFeverNeverMatches(userInput: string)
    ensures !PatternMatches("Fever", Lower(userInput))
  {
    WordsOfCapitalisedFever();
    CapitalisedPatternNeverMatches("Fever", userInput);
  }

  lemma WordsOfCapitalisedFever()
    ensures Words("Fever") == ["Fever"] && HasAsciiUpper("Fever")
  {
    WordsOfJoin(["Fever"]);
    assert Join(["Fever"]) == "Fever";
    assert IsAsciiUpper("Fever"[0]);
  }

  const MalariaAnswer: string := "Common malaria symptoms are fever, chills and sweating."
  const FeverAnswer: string := "Rest and drink fluids; see a doctor if the fever lasts."

  /** A two-intent catalog in which both intents match a question about
      malaria symptoms. */
  function SampleCatalog(): (c: Catalog)
    ensures |c| == 2 && |c[0].patterns| == 1 && |c[1].patterns| == 1
  {
    [ Intent("malaria_symptoms", ["malaria symptoms"], [MalariaAnswer]),
      Intent("fever", ["fever symptoms"], [FeverAnswer]) ]
  }

  lemma LowerOfMalariaQuestion()
    ensures Lower("What are Malaria symptoms") == "what are malaria symptoms"
  {
  }

  lemma MalariaInQuestion()
    ensures Occurs("malaria", "what are malaria symptoms")
  {
    OccursAtWitness("malaria", "what are malaria symptoms", 9);
  }

  lemma SymptomsInQuestion()
    ensures Occurs("symptoms", "what are malaria symptoms")
  {
    OccursAtWitness("symptoms", "what are malaria symptoms", 17);
  }

  lemma MalariaPatternMatchesQuestion()
    ensures PatternMatches("malaria symptoms", "what are malaria symptoms")
  {
    WordsOfMalariaSymptoms();
    MalariaInQuestion();
    MatchByWord("malaria symptoms", "what are malaria symptoms", 0);
  }

  lemma FeverPatternMatchesQuestion()
    ensures PatternMatches("fever symptoms", "what are malaria symptoms")
  {
    WordsOfFeverSymptoms();
    SymptomsInQuestion();
    MatchByWord("fever symptoms", "what are malaria symptoms", 1);
  }

  /** "What are Malaria symptoms" is answered by the malaria intent, which
      comes first, although the fever intent's word "symptoms" matches too. */
  lemma MalariaQuestionAnswered(pick: nat)
    ensures IntentMatches(SampleCatalog()[1], Lower("What are Malaria symptoms"))
    ensures Respond(SampleCatalog(), "What are Malaria symptoms", pick) == Returned(MalariaAnswer)
  {
    var c := SampleCatalog();
    var text := "what are malaria symptoms";
    LowerOfMalariaQuestion();
    MalariaPatternMatchesQuestion();
    FeverPatternMatchesQuestion();
    SinglePatternIntent(c[0], text);
    SinglePatternIntent(c[1], text);
    FirstMatchIsEarliest(c, text, 0);
  }

  lemma NoPatternWordInNonsense()
    ensures !Occurs("malaria", "xyzzycorp")
    ensures !Occurs("fever", "xyzzycorp")
    ensures !Occurs("symptoms", "xyzzycorp")
  {
    MissingCharNeverOccurs("malaria", "xyzzycorp", 0);
    MissingCharNeverOccurs("fever", "xyzzycorp", 0);
    MissingCharNeverOccurs("symptoms", "xyzzycorp", 0);
  }

  lemma MalariaPatternMissesNonsense()
    ensures !PatternMatches("malaria symptoms", "xyzzycorp")
  {
    NoPatternWordInNonsense();
    WordsOfMalariaSymptoms();
    MissByWords("malaria symptoms", ["malaria", "symptoms"], "xyzzycorp");
  }

  lemma FeverPatternMissesNonsense()
    ensures !PatternMatches("fever symptoms", "xyzzycorp")
  {
    NoPatternWordInNonsense();
    WordsOfFeverSymptoms();
    MissByWords("fever symptoms", ["fever", "symptoms"], "xyzzycorp");
  }

  /** "xyzzycorp" shares no pattern word with the sample catalog and gets
      the apology. */
  lemma NonsenseGetsApology(pick: nat)
    ensures Respond(SampleCatalog(), "xyzzycorp", pick) == Returned(Apology)
  {
    var c := SampleCatalog();
    var text := "xyzzycorp";
    assert Lower("xyzzycorp") == text;
    MalariaPatternMissesNonsense();
    FeverPatternMissesNonsense();
    SinglePatternIntent(c[0], text);
    SinglePatternIntent(c[1], text);
    ApologyIffNoMatch(c, "xyzzycorp", pick);
  }
}
