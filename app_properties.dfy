/** What `get_response` promises, stated about its specification `Respond`
    (which `App.GetResponse` is proved to compute). */
module AppProperties {
  import opened PyStr
  import opened App

  /** No pattern of any intent matches the text. */
  predicate NoPatternMatches(catalog: Catalog, text: string) {
    forall i, p :: 0 <= i < |catalog| && 0 <= p < |catalog[i].patterns| ==>
      !PatternMatches(catalog[i].patterns[p], text)
  }

  /** The intent at `i` has a matching pattern and no intent before it has. */
  predicate IsEarliestMatch(catalog: Catalog, text: string, i: nat) {
    i < |catalog| && IntentMatches(catalog[i], text) &&
    forall j :: 0 <= j < i ==> !IntentMatches(catalog[j], text)
  }

  /** Some intent answers with the string `t`. */
  predicate IsCatalogAnswer(catalog: Catalog, t: string) {
    exists i :: 0 <= i < |catalog| && t in catalog[i].responses
  }

  // ---------------------------------------------------------------------
  // First match

  /** The earliest matching intent is the one FirstMatch finds. */
  lemma FirstMatchIsEarliest(catalog: Catalog, text: string, i: nat)
    requires IsEarliestMatch(catalog, text, i)
    ensures FirstMatch(catalog, text) == Some(i)
  {
  }

  /** When the intent at `i` is the earliest with a matching pattern, the
      reply is drawn from its responses, whatever the random pick. */
  lemma EarliestIntentAnswers(catalog: Catalog, userInput: string, pick: nat, i: nat)
    requires IsEarliestMatch(catalog, Lower(userInput), i)
    ensures catalog[i].responses != [] ==>
      Respond(catalog, userInput, pick).Returned? &&
      Respond(catalog, userInput, pick).text in catalog[i].responses
    ensures catalog[i].responses == [] ==> Respond(catalog, userInput, pick) == RaisedIndexError
  {
    FirstMatchIsEarliest(catalog, Lower(userInput), i);
  }

  /** Intents after a matching one never influence the reply. */
  lemma {:induction false} LaterIntentsIgnored(catalog: Catalog, later: Catalog, userInput: string, pick: nat)
    requires FirstMatch(catalog, Lower(userInput)).Some?
    ensures Respond(catalog + later, userInput, pick) == Respond(catalog, userInput, pick)
  {
    var text := Lower(userInput);
    var i := FirstMatch(catalog, text).value;
    var all := catalog + later;
    assert all[i] == catalog[i];
    assert forall j :: 0 <= j < i ==> all[j] == catalog[j];
    FirstMatchIsEarliest(all, text, i);
  }

  /** Intents before the first matching one are skipped as if absent. */
  lemma {:induction false} EarlierNonMatchesIgnored(earlier: Catalog, catalog: Catalog, userInput: string, pick: nat)
    requires FirstMatch(earlier, Lower(userInput)).None?
    ensures Respond(earlier + catalog, userInput, pick) == Respond(catalog, userInput, pick)
  {
    var text := Lower(userInput);
    var all := earlier + catalog;
    match FirstMatch(catalog, text)
    case None =>
      forall j | 0 <= j < |all| ensures !IntentMatches(all[j], text) {
        if j < |earlier| { assert all[j] == earlier[j]; }
        else { assert all[j] == catalog[j - |earlier|]; }
      }
    case Some(i) =>
      assert all[|earlier| + i] == catalog[i];
      forall j | 0 <= j < |earlier| + i ensures !IntentMatches(all[j], text) {
        if j < |earlier| { assert all[j] == earlier[j]; }
        else { assert all[j] == catalog[j - |earlier|]; }
      }
      FirstMatchIsEarliest(all, text, |earlier| + i);
  }

  // ---------------------------------------------------------------------
  // What the reply can be

  /** Every answer of the earliest matching intent is a possible reply: the
      pick equal to its position produces it. */
  lemma EveryAnswerReachable(catalog: Catalog, userInput: string, i: nat, k: nat)
    requires FirstMatch(catalog, Lower(userInput)) == Some(i)
    requires k < |catalog[i].responses|
    ensures Respond(catalog, userInput, k) == Returned(catalog[i].responses[k])
  {
  }

  /** The IndexError happens exactly when the earliest matching intent has
      no responses, so a catalog whose intents all have answers never
      raises. */
  lemma IndexErrorOnlyFromEmptyResponses(catalog: Catalog, userInput: string, pick: nat)
    ensures Respond(catalog, userInput, pick) == RaisedIndexError <==>
      exists i: nat :: IsEarliestMatch(catalog, Lower(userInput), i) && catalog[i].responses == []
  {
    var text := Lower(userInput);
    if i: nat :| IsEarliestMatch(catalog, text, i) && catalog[i].responses == [] {
      FirstMatchIsEarliest(catalog, text, i);
    }
  }

  lemma NoIndexErrorWhenAnswersPresent(catalog: Catalog, userInput: string, pick: nat)
    requires forall i :: 0 <= i < |catalog| ==> catalog[i].responses != []
    ensures Respond(catalog, userInput, pick).Returned?
  {
  }

  // ---------------------------------------------------------------------
  // The apology

  lemma IntentMatchesIff(catalog: Catalog, text: string)
    ensures NoPatternMatches(catalog, text) <==>
            forall j :: 0 <= j < |catalog| ==> !IntentMatches(catalog[j], text)
  {
  }

  /** With no matching pattern anywhere the reply is the apology; when no
      intent itself answers with the apology's text, the converse holds
      too. */
  lemma ApologyIffNoMatch(catalog: Catalog, userInput: string, pick: nat)
    ensures NoPatternMatches(catalog, Lower(userInput)) ==>
            Respond(catalog, userInput, pick) == Returned(Apology)
    ensures !IsCatalogAnswer(catalog, Apology) ==>
            (Respond(catalog, userInput, pick) == Returned(Apology) <==>
             NoPatternMatches(catalog, Lower(userInput)))
  {
    var text := Lower(userInput);
    IntentMatchesIff(catalog, text);
    match FirstMatch(catalog, text)
    case None =>
    case Some(i) =>
      var o := Choice(catalog[i].responses, pick);
      if o.Returned? {
        assert o.text in catalog[i].responses;
      }
  }

  /** Empty or whitespace-only input always gets the apology. */
  lemma BlankInputGetsApology(catalog: Catalog, userInput: string, pick: nat)
    requires AllSpace(userInput)
    ensures Respond(catalog, userInput, pick) == Returned(Apology)
  {
    var text := Lower(userInput);
    LowerKeepsSpaces(userInput);
    forall i, p | 0 <= i < |catalog| && 0 <= p < |catalog[i].patterns|
      ensures !PatternMatches(catalog[i].patterns[p], text)
    {
      var ws := Words(catalog[i].patterns[p]);
      forall k | 0 <= k < |ws| ensures !Occurs(ws[k], text) {
        WordNeverInBlank(ws[k], text);
      }
    }
    ApologyIffNoMatch(catalog, userInput, pick);
  }

  // ---------------------------------------------------------------------
  // What a single pattern matches

  /** An empty or whitespace-only pattern matches nothing. */
  lemma BlankPatternNeverMatches(pattern: string, text: string)
    requires AllSpace(pattern)
    ensures !PatternMatches(pattern, text)
  {
    WordsEmptyIff(pattern);
  }

  /** Substring, not whole-word, matching: a word of the pattern anywhere
      inside the text, even in the middle of a longer word, is a match. */
  lemma WordInsideTextMatches(pattern: string, k: nat, before: string, after: string)
    requires k < |Words(pattern)|
    ensures PatternMatches(pattern, before + Words(pattern)[k] + after)
  {
    OccursInside(before, Words(pattern)[k], after);
  }

  /** Pattern words keep their case: a pattern each of whose words holds an
      ASCII capital can never match, because the text it is tested against
      has been lowercased. */
  lemma CapitalisedPatternNeverMatches(pattern: string, userInput: string)
    requires forall k :: 0 <= k < |Words(pattern)| ==> HasAsciiUpper(Words(pattern)[k])
    ensures !PatternMatches(pattern, Lower(userInput))
  {
    var ws := Words(pattern);
    forall k | 0 <= k < |ws| ensures !Occurs(ws[k], Lower(userInput)) {
      UpperNeverInLower(ws[k], userInput);
    }
  }

  /** Case handling is on the input side only: lowercasing the question
      first changes no reply, for any random pick. */
  lemma LoweredInputSameReply(catalog: Catalog, userInput: string, pick: nat)
    ensures Respond(catalog, Lower(userInput), pick) == Respond(catalog, userInput, pick)
  {
    LowerIdempotent(userInput);
  }
}
