/** What `webhook()` in app.py computes for one incoming message, as pure
    functions: the language envelope around the greeting, exact, fuzzy and
    AI tiers. */
module Pipeline {
  import opened Wrappers
  import opened Text
  import opened QuestionBank
  import opened Services

  const English := "en"

  /** The translator's source language for the inbound translation. */
  const Auto := "auto"

  const Greetings: seq<string> := ["hi", "hello", "hey", "hii", "helo"]

  const Introduction := "Hello, I am CareConnect, your healthbot. How can I help you with health-related queries?"

  /** Python truthiness of `reply_en`: neither `None` nor the empty string. */
  predicate Truthy(o: Option<string>) {
    o.Some? && o.value != ""
  }

  /** How handling a message ends: with a reply text, or with the `KeyError`
      that `responses[match_question]` raises for a key not in the bank. */
  datatype Outcome = Reply(text: string) | KeyError(key: string)

  /** An outcome together with the service calls made to reach it. */
  datatype Run = Run(outcome: Outcome, calls: seq<Call>)

  /** Lines 11-14: the detected language, `"en"` when detection raises. */
  function DetectLanguage(svc: Services, msg: string): string {
    svc.detect(msg).GetOr(English)
  }

  /** Lines 17-22: the text the tiers match, translated to English unless the
      language is English; the message itself when translation raises. */
  function ToEnglish(svc: Services, lang: string, msg: string): string {
    if lang == English then msg else svc.translate(Auto, English, msg).GetOr(msg)
  }

  /** Lines 51-56: the reply translated back into the detected language
      unless that is English; the English reply when translation raises. */
  function FromEnglish(svc: Services, lang: string, replyEn: string): string {
    if lang == English then replyEn else svc.translate(English, lang, replyEn).GetOr(replyEn)
  }

  /** The translator call that `ToEnglish` or `FromEnglish` makes, if any. */
  function TranslateCall(lang: string, source: string, target: string, text: string): seq<Call> {
    if lang == English then [] else [Translate(source, target, text)]
  }

  /** Line 26: `user_msg_en.lower() in greetings`. */
  predicate IsGreeting(u: string) {
    Lower(u) in Greetings
  }

  /** Lines 24-48: the English reply for the English text `u`, tier by tier;
      each tier runs only when the ones before it left `reply_en` falsy. */
  function MatchTiers(svc: Services, bank: Bank, u: string): Run {
    if IsGreeting(u) then Run(Reply(Introduction), [])
    else
      var exact := ExactReply(bank, u);
      if Truthy(exact) then Run(Reply(exact.value), [])
      else
        var k := svc.fuzzyMatch(u);
        if Truthy(k) && Lookup(bank, k.value).None? then Run(KeyError(k.value), [FuzzyMatch(u)])
        else
          var fuzzy := if Truthy(k) then EnglishAnswer(Lookup(bank, k.value).value) else exact;
          if Truthy(fuzzy) then Run(Reply(fuzzy.value), [FuzzyMatch(u)])
          else Run(Reply(svc.askGroq(u)), [FuzzyMatch(u), AskGroq(u)])
  }

  /** Lines 3 and 10-56: the whole resolution of one message body. */
  function Resolve(svc: Services, bank: Bank, body: string): Run {
    var msg := Strip(body);
    var lang := DetectLanguage(svc, msg);
    var u := ToEnglish(svc, lang, msg);
    var inbound := [Detect(msg)] + TranslateCall(lang, Auto, English, msg);
    var m := MatchTiers(svc, bank, u);
    match m.outcome
    case KeyError(_) => Run(m.outcome, inbound + m.calls)
    case Reply(replyEn) =>
      Run(Reply(FromEnglish(svc, lang, replyEn)),
          inbound + m.calls + TranslateCall(lang, English, lang, replyEn))
  }

  // ---------------------------------------------------------------------
  // The language envelope

  /** A message in English, or one whose language could not be detected,
      is matched as it is: no translator call is made either way, and the
      outcome is the English reply. */
  lemma EnglishSkipsTranslation(svc: Services, bank: Bank, body: string)
    requires DetectLanguage(svc, Strip(body)) == English
    ensures var r := Resolve(svc, bank, body);
            var m := MatchTiers(svc, bank, Strip(body));
            && r.outcome == m.outcome
            && r.calls == [Detect(Strip(body))] + m.calls
  {
    var msg := Strip(body);
    var m := MatchTiers(svc, bank, msg);
    assert ToEnglish(svc, English, msg) == msg;
    assert TranslateCall(English, Auto, English, msg) == [];
    if m.outcome.Reply? {
      assert TranslateCall(English, English, English, m.outcome.text) == [];
      assert FromEnglish(svc, English, m.outcome.text) == m.outcome.text;
    }
  }

  /** When detection raises, the language is English: the tiers match the
      stripped message itself, nothing is translated either way, and the
      reply is the English reply. */
  lemma DetectionFailureSkipsTranslation(svc: Services, bank: Bank, body: string)
    requires svc.detect(Strip(body)).None?
    ensures var r := Resolve(svc, bank, body);
            var m := MatchTiers(svc, bank, Strip(body));
            && r.outcome == m.outcome
            && r.calls == [Detect(Strip(body))] + m.calls
            && forall c :: c in r.calls ==> !c.Translate?
  {
    EnglishSkipsTranslation(svc, bank, body);
    var m := MatchTiers(svc, bank, Strip(body));
    assert forall c :: c in m.calls ==> !c.Translate?;
  }

  /** When the inbound translation raises, the tiers match the untranslated
      message, as if no translation had been asked for. */
  lemma InboundTranslationFailurePassesThrough(svc: Services, bank: Bank, body: string)
    requires DetectLanguage(svc, Strip(body)) != English
    requires svc.translate(Auto, English, Strip(body)).None?
    ensures ToEnglish(svc, DetectLanguage(svc, Strip(body)), Strip(body)) == Strip(body)
    ensures var r := Resolve(svc, bank, body);
            var m := MatchTiers(svc, bank, Strip(body));
            r.calls[..2 + |m.calls|] == [Detect(Strip(body)), Translate(Auto, English, Strip(body))] + m.calls
  {
  }

  /** The reply is translated back on every path that replies, the greeting
      included, exactly when the language is not English, with the English
      reply as the text; when that translation raises, the English reply is
      sent unchanged. */
  lemma OutboundTranslationOnEveryReply(svc: Services, bank: Bank, body: string)
    requires MatchTiers(svc, bank, ToEnglish(svc, DetectLanguage(svc, Strip(body)), Strip(body))).outcome.Reply?
    ensures var lang := DetectLanguage(svc, Strip(body));
            var replyEn := MatchTiers(svc, bank, ToEnglish(svc, lang, Strip(body))).outcome.text;
            var r := Resolve(svc, bank, body);
            && (lang == English ==> r.outcome == Reply(replyEn))
            && (lang != English ==> r.calls[|r.calls| - 1] == Translate(English, lang, replyEn))
            && (lang != English && svc.translate(English, lang, replyEn).None? ==> r.outcome == Reply(replyEn))
            && (lang != English && svc.translate(English, lang, replyEn).Some? ==>
                  r.outcome == Reply(svc.translate(English, lang, replyEn).value))
  {
  }

  // ---------------------------------------------------------------------
  // The tiers

  /** A greeting, in any letter case, is answered with the introduction;
      neither the bank nor any service is consulted, so the answer is the
      same for every bank and every set of services. */
  lemma GreetingShortCircuits(svc: Services, bank: Bank, u: string, svc': Services, bank': Bank)
    requires IsGreeting(u)
    ensures MatchTiers(svc, bank, u) == Run(Reply(Introduction), [])
    ensures MatchTiers(svc, bank, u) == MatchTiers(svc', bank', u)
  {
  }

  /** An exact hit, on a non-greeting, whose English answer is non-empty ends
      resolution: the answer is that of the first matching question in bank
      order, and no service is called. */
  lemma ExactHitWins(svc: Services, bank: Bank, u: string, i: nat)
    requires !IsGreeting(u)
    requires i < |bank| && SameIgnoringCase(bank[i].question, u)
    requires forall j :: 0 <= j < i ==> !SameIgnoringCase(bank[j].question, u)
    requires Truthy(EnglishAnswer(bank[i]))
    ensures MatchTiers(svc, bank, u) == Run(Reply(EnglishAnswer(bank[i]).value), [])
  {
    assert FirstExact(bank, u) == Some(i);
  }

  /** `fuzzy_match` is called, on the English text, exactly when the input is
      not a greeting and the exact tier left no truthy reply; an exact hit
      whose entry lacks an English answer, or has an empty one, falls
      through to it. */
  lemma FuzzyOnlyAfterExactMiss(svc: Services, bank: Bank, u: string, x: string)
    ensures FuzzyMatch(x) in MatchTiers(svc, bank, u).calls <==>
              x == u && !IsGreeting(u) && !Truthy(ExactReply(bank, u))
  {
  }

  /** The fuzzy tier leaves no truthy reply: the matcher found nothing, or the
      entry it named has no non-empty English answer. */
  predicate FuzzyMiss(svc: Services, bank: Bank, u: string) {
    var k := svc.fuzzyMatch(u);
    !Truthy(k) || (Lookup(bank, k.value).Some? && !Truthy(EnglishAnswer(Lookup(bank, k.value).value)))
  }

  /** `ask_groq` is called, on the English text, exactly when no earlier tier
      produced a truthy reply; its answer is then the English reply. */
  lemma AiOnlyAfterAllTiersMiss(svc: Services, bank: Bank, u: string, x: string)
    ensures AskGroq(x) in MatchTiers(svc, bank, u).calls <==>
              x == u && !IsGreeting(u) && !Truthy(ExactReply(bank, u)) && FuzzyMiss(svc, bank, u)
    ensures AskGroq(u) in MatchTiers(svc, bank, u).calls ==>
              MatchTiers(svc, bank, u) == Run(Reply(svc.askGroq(u)), [FuzzyMatch(u), AskGroq(u)])
  {
  }

  /** A fuzzy hit on a bank key answers with `responses[k]["en"]` when that
      is non-empty; a name that is not a key raises `KeyError`. */
  lemma FuzzyHitAnswersFromBank(svc: Services, bank: Bank, u: string)
    requires !IsGreeting(u) && !Truthy(ExactReply(bank, u))
    requires Truthy(svc.fuzzyMatch(u))
    ensures var k := svc.fuzzyMatch(u).value;
            && (k !in Keys(bank) ==> MatchTiers(svc, bank, u) == Run(KeyError(k), [FuzzyMatch(u)]))
            && (k in Keys(bank) && Truthy(EnglishAnswer(Lookup(bank, k).value)) ==>
                  MatchTiers(svc, bank, u) == Run(Reply(EnglishAnswer(Lookup(bank, k).value).value), [FuzzyMatch(u)]))
  {
  }

  /** A fuzzy matcher that names only questions of the bank. */
  ghost predicate NamesOnlyKeys(svc: Services, bank: Bank) {
    forall s :: Truthy(svc.fuzzyMatch(s)) ==> svc.fuzzyMatch(s).value in Keys(bank)
  }

  /** With such a matcher every message gets a reply: the `KeyError` path is
      the only way `webhook()` fails to produce one, given services that never
      raise where app.py does not catch it. */
  lemma AlwaysReplies(svc: Services, bank: Bank, body: string)
    requires NamesOnlyKeys(svc, bank)
    ensures Resolve(svc, bank, body).outcome.Reply?
  {
  }
}
