/** The keyword matcher of the chatbot (`get_response` in app.py): the
    intent catalog, the pure specification of which intent answers a
    question, and the nested scan that the source runs. */
module App {
  import opened PyStr

  datatype Option<T> = None | Some(value: T)

  /** One topic of the catalog: example phrasings and canned answers. */
  datatype Intent = Intent(tag: string, patterns: seq<string>, responses: seq<string>)

  /** The `intents` list of the catalog, in file order. */
  type Catalog = seq<Intent>

  /** What a call of `get_response` ends in: the string it returns, or the
      IndexError that `random.choice` raises on an empty `responses` list. */
  datatype Outcome = Returned(text: string) | RaisedIndexError

  /** The fixed reply when no pattern matches. */
  const Apology: string := "I am sorry, I am not trained to answer that question. Please try rephrasing or ask about a different topic. For medical emergencies, please contact a healthcare professional."

  // ---------------------------------------------------------------------
  // The per-pattern test

  /** `any(word in text for word in ws)` */
  function AnyOccurs(ws: seq<string>, text: string): (b: bool)
    ensures b <==> exists k :: 0 <= k < |ws| && Occurs(ws[k], text)
  {
    if ws == [] then false
    else Occurs(ws[0], text) || AnyOccurs(ws[1..], text)
  }

  /** A pattern matches when some whitespace-separated word of it is a
      substring of the (already lowercased) text. */
  function PatternMatches(pattern: string, text: string): (b: bool)
    ensures b <==> exists k :: 0 <= k < |Words(pattern)| && Occurs(Words(pattern)[k], text)
  {
    AnyOccurs(Words(pattern), text)
  }

  /** Some pattern of the intent matches. */
  predicate IntentMatches(intent: Intent, text: string) {
    exists p :: 0 <= p < |intent.patterns| && PatternMatches(intent.patterns[p], text)
  }

  // ---------------------------------------------------------------------
  // Specification of the scan

  /** The position of the earliest intent, in catalog order, that has a
      matching pattern; None when no intent has one. */
  function FirstMatch(catalog: Catalog, text: string): (r: Option<nat>)
    ensures r.Some? ==> r.value < |catalog| && IntentMatches(catalog[r.value], text)
    ensures r.Some? ==> forall j :: 0 <= j < r.value ==> !IntentMatches(catalog[j], text)
    ensures r.None? <==> forall j :: 0 <= j < |catalog| ==> !IntentMatches(catalog[j], text)
  {
    if catalog == [] then None
    else if IntentMatches(catalog[0], text) then Some(0)
    else match FirstMatch(catalog[1..], text)
      case None => None
      case Some(k) => Some(k + 1)
  }

  /** `random.choice(responses)` with the random index supplied as `pick`:
      any `pick` selects the answer at `pick % |responses|`, so every answer
      is reachable and nothing else is. */
  function Choice(responses: seq<string>, pick: nat): (o: Outcome)
    ensures o.RaisedIndexError? <==> responses == []
    ensures o.Returned? ==> o.text in responses
    ensures pick < |responses| ==> o == Returned(responses[pick])
  {
    if responses == [] then RaisedIndexError
    else Returned(responses[pick % |responses|])
  }

  /** What `get_response(userInput)` returns when `random.choice` draws
      `pick`. */
  function Respond(catalog: Catalog, userInput: string, pick: nat): (o: Outcome)
    ensures o == Returned(Apology) || o == RaisedIndexError ||
            exists i :: 0 <= i < |catalog| && o.text in catalog[i].responses
  {
    match FirstMatch(catalog, Lower(userInput))
    case None => Returned(Apology)
    case Some(i) => Choice(catalog[i].responses, pick)
  }

  // ---------------------------------------------------------------------
  // The scan as the source runs it

  /** `get_response`: lowercase the input, then scan the intents and each
      intent's patterns in order, answering from the first intent with a
      matching pattern; apologise when the scan runs out. The catalog is a
      value and the method modifies nothing, so a call cannot change it. */
  method GetResponse(catalog: Catalog, userInput: string, pick: nat) returns (o: Outcome)
    ensures o == Respond(catalog, userInput, pick)
  {
    var text := Lower(userInput);
    var i := 0;
    while i < |catalog|
      invariant 0 <= i <= |catalog|
      invariant forall j :: 0 <= j < i ==> !IntentMatches(catalog[j], text)
    {
      var intent := catalog[i];
      var p := 0;
      while p < |intent.patterns|
        invariant 0 <= p <= |intent.patterns|
        invariant forall q :: 0 <= q < p ==> !PatternMatches(intent.patterns[q], text)
      {
        if PatternMatches(intent.patterns[p], text) {
          assert IntentMatches(catalog[i], text);
          o := Choice(intent.responses, pick);
          return;
        }
        p := p + 1;
      }
      i := i + 1;
    }
    o := Returned(Apology);
  }
}
