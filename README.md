# Keyword matcher of the health-awareness chatbot

This project models `get_response`, the one decision routine of the chatbot
(app.py). A question goes through four steps:

1. The question is lowercased.
2. The intents of the catalog are scanned in order, and each intent's
   patterns in order.
3. The first pattern that has a whitespace-separated word occurring anywhere
   inside the lowercased question (a substring test) wins.
4. The answer is a random choice among that intent's responses. When nothing
   matches, the answer is a fixed apology.

Files and modules:

- `text.dfy`, module `PyStr`: the Python string builtins the matcher uses.
  `Lower` is `str.lower()` on ASCII letters. `Words` is `str.split()` with no
  argument: separators are Python's `str.isspace()` characters, and runs of
  them give no empty pieces. `Occurs` is `w in s`. The lemmas describe these:
  lowercasing is idempotent, splitting a single-space join gives the words
  back, and so on.
- `app.dfy`, module `App`: the catalog (`Intent`, `Catalog`), the apology
  constant and the pure specification. `AnyOccurs` is the `any(...)`
  expression. `FirstMatch` finds the earliest matching intent. `Choice` is
  `random.choice`. `Respond` is the whole reply. `GetResponse` is the
  source's nested scan with early return, written as two `while` loops and
  proved to compute `Respond`.
- `app_properties.dfy`, module `AppProperties`: what the matcher promises,
  as lemmas about `Respond`.
- `app_examples.dfy`, module `AppExamples`: worked examples on concrete
  strings and on a two-intent sample catalog.

The random pick is a parameter `pick: nat`. `random.choice(responses)`
returns `responses[pick % |responses|]`. On an empty list the source raises
`IndexError`, and the model returns the outcome `RaisedIndexError` instead
of forbidding that input. "The set of possible replies" means the replies
over all picks.

The catalog is a value passed in. `GetResponse` has no `modifies` clause, so
a call cannot change the catalog. That is the model's form of "the catalog
is only read".

## Model

| member | source | states |
|---|---|---|
| PyStr.LowerChar | app.py:14 | lowercasing one character maps an ASCII capital to its small letter (code point + 32), leaves every other character alone, and never yields a capital |
| PyStr.Lower | app.py:14 | definition of `user_input.lower()`: each character goes through `LowerChar`; the contract gives the same length and no ASCII capital left; further properties in `LowerIdempotent` and `LowerKeepsSpaces` |
| PyStr.LowerIdempotent | app.py:14 | lowercasing twice is the same as lowercasing once |
| PyStr.LowerKeepsSpaces | app.py:14 | the lowercased question is all whitespace exactly when the question is |
| PyStr.IsSpace | app.py:20 | definition of the separators of `pattern.split()`: the code points for which Python's `str.isspace()` holds; the contract says none is an ASCII capital and lowercasing leaves each unchanged |
| PyStr.Words | app.py:20 | every piece of `pattern.split()` is non-empty and contains no whitespace character |
| PyStr.WordsEmptyIff | app.py:20 | `split()` gives no words if and only if the string is empty or whitespace only |
| PyStr.WordsKeepCharacters | app.py:20 | the pieces of `split()`, glued back together, are exactly the string's non-whitespace characters in order |
| PyStr.WordsOfJoin | app.py:20 | splitting a single-space join of words gives back the same words |
| PyStr.WordsOfWord | app.py:20 | a non-empty, whitespace-free string splits into exactly itself |
| PyStr.WordsSplitAtSpace | app.py:20 | any separator cuts the string in two: `split()` of `a + [c] + b` is `split()` of `a` followed by `split()` of `b`, so pieces are maximal runs |
| PyStr.Occurs | app.py:20 | definition of `word in user_input`: some slice of the text equals the word; the contract says a word longer than the text never occurs and the empty string occurs in every text; further properties in `OccursInside`, `UpperNeverInLower` and `WordNeverInBlank` |
| PyStr.OccursInside | app.py:20 | `w in a + w + b` always holds: `in` is a substring test |
| PyStr.UpperNeverInLower | app.py:14-20 | a pattern word holding an ASCII capital is never `in` a lowercased question |
| PyStr.WordNeverInBlank | app.py:20 | a non-empty whitespace-free word is never `in` a whitespace-only string |
| App.AnyOccurs | app.py:20 | `any(word in text for word in ws)` is true exactly when some word of `ws` is a substring of `text` |
| App.PatternMatches | app.py:20 | definition of the test `any(word in user_input for word in pattern.split())`: true exactly when some piece of `split()` of the pattern occurs in the text; properties in `BlankPatternNeverMatches`, `WordInsideTextMatches` and `CapitalisedPatternNeverMatches` |
| App.FirstMatch | app.py:17-21 | gives the position of an intent with a matching pattern such that no earlier intent has one, and gives nothing exactly when no intent has a matching pattern |
| App.Choice | app.py:21 | `random.choice` raises exactly on an empty list; otherwise it returns a member of the list, and the pick equal to a position returns the answer at that position |
| App.Respond | app.py:9-24 | definition of the whole of `get_response` for a given random pick; the contract says every reply is the apology, the IndexError, or an answer from some intent's responses; further properties in `LaterIntentsIgnored`, `EarlierNonMatchesIgnored`, `ApologyIffNoMatch`, `LoweredInputSameReply` and the other `AppProperties` lemmas |
| App.GetResponse | app.py:9-24 | the nested scan over intents and patterns, with early return and the apology fallback, computes `Respond` |
| AppProperties.FirstMatchIsEarliest | app.py:17-21 | the earliest intent with a matching pattern is the one the scan stops at |
| AppProperties.EarliestIntentAnswers | app.py:17-21 | when intent `i` is the earliest match, every pick gives an answer from intent `i`'s responses, or the IndexError when that list is empty |
| AppProperties.LaterIntentsIgnored | app.py:17-21 | once a prefix of the catalog has a match, appending further intents changes no reply |
| AppProperties.EarlierNonMatchesIgnored | app.py:17-21 | leading intents without a match can be dropped without changing any reply |
| AppProperties.EveryAnswerReachable | app.py:21 | every answer of the earliest matching intent is a possible reply |
| AppProperties.IndexErrorOnlyFromEmptyResponses | app.py:21 | the IndexError happens if and only if the earliest matching intent has an empty `responses` list |
| AppProperties.NoIndexErrorWhenAnswersPresent | app.py:21 | a catalog whose intents all have answers never raises |
| AppProperties.IntentMatchesIff | app.py:17-20 | no pattern of any intent matches exactly when no intent matches |
| AppProperties.ApologyIffNoMatch | app.py:17-24 | with no matching pattern the reply is the apology; if no intent answers with the apology's own text, the apology comes back if and only if no pattern matches |
| AppProperties.BlankInputGetsApology | app.py:14-24 | an empty or whitespace-only question always gets the apology |
| AppProperties.BlankPatternNeverMatches | app.py:20 | an empty or whitespace-only pattern matches no question |
| AppProperties.WordInsideTextMatches | app.py:20 | a pattern word anywhere inside the question, even inside a longer word, is a match |
| AppProperties.CapitalisedPatternNeverMatches | app.py:14-20 | a pattern whose every word holds an ASCII capital never matches, because only the question is lowercased |
| AppProperties.LoweredInputSameReply | app.py:14 | `get_response(s)` and `get_response(s.lower())` give the same reply for every pick, so they have the same set of possible replies |
| AppExamples.FluMatchesInfluenza | app.py:20 | the pattern "flu" matches "I have Influenza", although "flu" is not a word of that question |
| AppExamples.CapitalisedFeverNeverMatches | app.py:14-20 | the pattern "Fever" matches no question, not even "Fever" |
| AppExamples.MalariaQuestionAnswered | app.py:17-21 | in a catalog whose two intents both match "What are Malaria symptoms", the first intent gives the answer |
| AppExamples.NonsenseGetsApology | app.py:17-24 | "xyzzycorp" matches no pattern of the sample catalog and gets the apology |

## Left out

- Loading the catalog from `data.json` (app.py:5-7) is file I/O. The catalog is a parameter, and a missing `intents`, `patterns` or `responses` key is not modelled because `Intent` always has all three.
- The Streamlit page (app.py:26-58) is UI only: page setup, markdown, the chat-history list in `st.session_state` and its replay.
- `setup_db.py` is not part of this model. It creates and fills an SQLite table and has no decision logic.
- `random.choice`'s randomness is a parameter `pick`. The model fixes which replies are possible. It does not model the uniform distribution over them.
- PyStr.Lower: lowercases ASCII letters only. Python's `str.lower()` also lowercases non-ASCII letters, and a few of them become several characters (for example `'İ'`).
- Python strings can hold lone surrogate code points, and Dafny's `char` cannot. Such strings are not modelled.
- The scored matching, thresholds, record-store lookup, external summary lookup and interaction logging of the wider design do not exist in `get_response`, so none of them is modelled.
