# CareConnect message resolution, modelled in Dafny

CareConnect answers health questions that arrive over a messaging webhook.
For each message, `webhook()` in `app.py` does the following:

1. It strips the message and detects its language. It falls back to `"en"` when the detector raises.
2. It translates the message to English when the language is not `"en"`. When that translation raises, the text passes through unchanged.
3. It resolves an English reply through four tiers, and the first truthy result wins:
   - a fixed list of greetings;
   - a case-insensitive exact match against the response bank, where the first key in bank order wins;
   - the `fuzzy_match` matcher;
   - the `ask_groq` AI model.
4. It translates the reply back into the detected language, on every path including the greeting. This step is best-effort as well.

The model is split into these modules:

- `Wrappers` (`wrappers.dfy`) defines `Option`. It stands for Python's `None` and for a service call that raises.
- `Text` (`text.dfy`) models `str.lower()` and `str.strip()` on ASCII.
- `QuestionBank` (`bank.dfy`) models the response bank. It is a sequence of `Entry(question, answers)`, so it keeps the dict's iteration order. It also holds the exact-match search (`FirstExact`, `ExactReply`), `responses[k]` (`Lookup`, where `None` stands for `KeyError`) and `ans.get("en")` (`EnglishAnswer`).
- `Services` (`services.dfy`) treats the four outside services as oracles. The fields of `Services` give the result of `detect`, `GoogleTranslator(...).translate`, `fuzzy_match` and `ask_groq` as functions of their arguments. `Call` records one invocation.
- `Pipeline` (`pipeline.dfy`) is the specification:
  - `DetectLanguage`, `ToEnglish` and `FromEnglish` form the language envelope.
  - `MatchTiers` gives the tiers of lines 24-48.
  - `Resolve` gives the whole message.
  - The lemmas state the envelope and tier-ordering properties. Every run carries the ordered list of service calls it makes, so "never consulted" and "called only when" can be stated exactly.
- `App` (`app.dfy`) holds `Webhook`, the imperative version of `webhook()`. It reassigns the same locals step by step. Its exact tier, `ExactTier`, is the guarded `for ... break` loop of lines 31-36. `Webhook` is proved equal to `Resolve`.
- `Scenarios` (`scenarios.dfy`) works concrete messages through `Resolve`.

Three consequences of `app.py`'s tier order are easy to miss:

- A bank key that is also a greeting (for example `"Hi"`) is never answered from the bank, because the greeting tier runs first. See `Scenarios.GreetingShadowsBankQuestion`.
- An exact or fuzzy hit whose entry has no `"en"` answer, or an empty one, does not end resolution. Control falls through to the next tier. The per-language lookup never uses the detected language; it always takes `"en"` and translates afterwards.
- There is no acceptance threshold, context memory or TTL in `app.py`. Any threshold lives inside `fuzzy_match`, which is not part of this model.

## Model

| member | source | states |
|---|---|---|
| `Text.Lower` | app.py:26 | `lower()` keeps the length and lowers each ASCII capital, character by character |
| `Text.LowerFixesExactlyLowerCase` | app.py:25-26 | a string is its own lower-case form exactly when it has no capital letter (so the lower-case greeting tokens match their own lowered form) |
| `Text.LeadingSpaces` | app.py:3 | counts the whitespace characters the message starts with: all of them are whitespace and the next one is not |
| `Text.TrailingSpaces` | app.py:3 | counts the whitespace characters the message ends with: all of them are whitespace and the one before them is not |
| `Text.Strip` | app.py:3 | the stripped message has whitespace at neither end, and an already stripped message is unchanged |
| `Text.StripKeepsMiddle` | app.py:3 | strip keeps one contiguous run of the message and removes only whitespace around it |
| `QuestionBank.FirstExact` | app.py:32-36 | the loop stops at an index whose question equals the input ignoring case, with no such question before it; it finds none exactly when no question matches |
| `QuestionBank.GuardMeansFound` | app.py:31-36 | the membership guard at line 31 holds if and only if the loop after it finds a matching question |
| `QuestionBank.Lookup` | app.py:42 | `responses[k]` yields an entry exactly when `k` is a key, and that entry is stored under `k`; otherwise it is the `KeyError` case |
| `QuestionBank.LookupInDict` | app.py:42 | in a dict without duplicate keys, `responses[q]` is the entry stored under `q` |
| `App.ExactTier` | app.py:30-36 | the guarded search loop leaves `reply_en` equal to the English answer of the first question in bank order that equals the input ignoring case, and `None` when there is none |
| `App.Webhook` | app.py:10-56 | the step-by-step handler yields exactly the outcome and the ordered service calls of the `Resolve` specification |
| `Pipeline.EnglishSkipsTranslation` | app.py:17-52 | when the language is `"en"`, the tiers match the stripped message, the only call before them is the detector, and the outcome is the English reply unchanged |
| `Pipeline.DetectionFailureSkipsTranslation` | app.py:11-22 | when detection raises, the tiers match the stripped message unchanged, no translator call is made either way, and the outcome is the English reply |
| `Pipeline.InboundTranslationFailurePassesThrough` | app.py:17-22 | when the inbound translation raises, the text matched equals the incoming message, and the tiers run on it right after the detector and translator calls |
| `Pipeline.OutboundTranslationOnEveryReply` | app.py:50-56 | with language `"en"`, the final reply is the English reply; otherwise the last call translates that reply into the detected language, and the final reply is its result, or the English reply when it raises |
| `Pipeline.GreetingShortCircuits` | app.py:24-27 | a greeting in any letter case gets the CareConnect introduction and no call is made, whatever the bank and the services |
| `Pipeline.ExactHitWins` | app.py:30-36 | a non-greeting whose first case-insensitive bank match has a non-empty English answer gets that answer, with no fuzzy or AI call |
| `Pipeline.FuzzyOnlyAfterExactMiss` | app.py:38-40 | `fuzzy_match` is called, on the English text, if and only if the text is not a greeting and the exact tier left `reply_en` falsy |
| `Pipeline.AiOnlyAfterAllTiersMiss` | app.py:45-47 | `ask_groq` is called, on the English text, if and only if no greeting, exact or fuzzy reply was truthy; its answer is then the English reply |
| `Pipeline.FuzzyHitAnswersFromBank` | app.py:39-42 | after an exact miss, a fuzzy name that is not a key raises `KeyError`; a key with a non-empty English answer gets that answer, with only the fuzzy call made |
| `Pipeline.AlwaysReplies` | app.py:40-42 | when `fuzzy_match` only names bank questions, every message ends in a reply |
| `Scenarios.FeverMatchesExactly` | app.py:30-36 | the tiers answer "Fever" from the bank entry "fever" with "Rest and hydrate.", without calling any service |
| `Scenarios.FeverIsAnsweredExactly` | app.py:10-56 | the message "Fever", detected as English, is answered "Rest and hydrate." by the exact tier, with only the detector called |
| `Scenarios.StripsToHello` | app.py:3 | "  HELLO " strips to "HELLO" |
| `Scenarios.ShoutedGreeting` | app.py:24-27 | "  HELLO " detected as English gets the introduction |
| `Scenarios.GreetingShadowsBankQuestion` | app.py:24-31 | a bank question "Hi" is never reached by the message "hi", because the greeting tier comes first |
| `Scenarios.MissingEnglishFallsThrough` | app.py:33-40 | an exact hit on an entry without an `"en"` answer still leads to a `fuzzy_match` call on the same text |

## Left out

- Flask routing and reading `request.values` (app.py:1-4) are left out. That covers the `"Body"` default of `""` and the `"default_user"` sender, whose value is only logged. `Webhook` takes the message body as a parameter.
- The Twilio `MessagingResponse`, the XML body and the `Response` (app.py:7-8, 58, 60) are reply framing. The model returns the reply text.
- The `print` logging (app.py:5, 35, 43, 48, 59) is not modelled.
- The internals of `detect`, `GoogleTranslator`, `fuzzy_match` and `ask_groq` are network or foreign code. Each is an oracle: a function from its arguments to a result. For `detect` and the translator, `None` stands for a raise (a timeout included), which app.py catches. For `fuzzy_match`, `None` is its no-match return value.
- A raise from `fuzzy_match` (app.py:40) or `ask_groq` (app.py:47) is not modelled: app.py does not catch it, so it ends `webhook()` without a reply. The model takes both services never to raise. The model does not cover whether `ask_groq` can itself fail, or a fixed "not configured" message, because that code is not part of this model.
- Text.Lower: models ASCII `lower()` only. Python's full Unicode case mapping is out of scope.
- Text.Strip: removes ASCII whitespace only. Python's `strip()` also removes Unicode spaces such as U+0085 and U+00A0.
- A `KeyError` from `responses[match_question]` ends the model's run with `KeyError`. In the running service Flask would answer it with an error response, which is not modelled.
- Per-user context memory, TTL expiry and acceptance thresholds do not occur in `app.py`, so they are not modelled.

