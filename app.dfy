/** `webhook()` in app.py as it runs: locals reassigned step by step, the
    exact tier a loop over the bank that breaks at the first match. The
    Flask request and the Twilio reply around it are not modelled; `body`
    is the message text and the result is what would be sent. */
module App {
  import opened Wrappers
  import opened Text
  import opened QuestionBank
  import opened Services
  import opened Pipeline

  /** Lines 30-36: the exact tier. Only when some question equals `u`
      ignoring case does the loop run, and it then stops at the first such
      question in bank order, taking its English answer. */
  method ExactTier(bank: Bank, u: string) returns (replyEn: Option<string>)
    ensures replyEn == ExactReply(bank, u)
  {
    replyEn := None;
    if Lower(u) in LowerKeys(bank) {
      var i := 0;
      while i < |bank|
        invariant 0 <= i <= |bank|
        invariant forall j :: 0 <= j < i ==> !SameIgnoringCase(bank[j].question, u)
        invariant replyEn == None
      {
        if Lower(bank[i].question) == Lower(u) {
          replyEn := EnglishAnswer(bank[i]);
          assert FirstExact(bank, u) == Some(i);
          break;
        }
        i := i + 1;
      }
    } else {
      GuardMeansFound(bank, u);
    }
  }

  /** Handles one message body; `calls` lists the service calls in the order
      they are made. */
  method Webhook(svc: Services, bank: Bank, body: string) returns (outcome: Outcome, calls: seq<Call>)
    ensures Run(outcome, calls) == Resolve(svc, bank, body)
  {
    var incomingMsg := Strip(body);

    // 1. Detect language
    calls := [Detect(incomingMsg)];
    var detectedLang := English;
    var detected := svc.detect(incomingMsg);
    if detected.Some? {
      detectedLang := detected.value;
    }

    // 2. Translate user input to English if needed
    var userMsgEn := incomingMsg;
    if detectedLang != English {
      calls := calls + [Translate(Auto, English, incomingMsg)];
      var translated := svc.translate(Auto, English, incomingMsg);
      if translated.Some? {
        userMsgEn := translated.value;
      }
    }
    ghost var inbound := calls;
    assert detectedLang == DetectLanguage(svc, incomingMsg);
    assert userMsgEn == ToEnglish(svc, detectedLang, incomingMsg);
    assert inbound == [Detect(incomingMsg)] + TranslateCall(detectedLang, Auto, English, incomingMsg);
    ghost var tierCalls: seq<Call> := [];

    // 3. Greetings, then the bank, the fuzzy matcher and the AI model
    var replyEn: Option<string>;
    if Lower(userMsgEn) in Greetings {
      replyEn := Some(Introduction);
    } else {
      replyEn := ExactTier(bank, userMsgEn);

      if !Truthy(replyEn) {
        calls, tierCalls := calls + [FuzzyMatch(userMsgEn)], [FuzzyMatch(userMsgEn)];
        var matchQuestion := svc.fuzzyMatch(userMsgEn);
        if Truthy(matchQuestion) {
          var entry := Lookup(bank, matchQuestion.value);
          if entry.None? {
            outcome := KeyError(matchQuestion.value);
            assert MatchTiers(svc, bank, userMsgEn) == Run(outcome, tierCalls);
            return;
          }
          replyEn := EnglishAnswer(entry.value);
        }
      }

      if !Truthy(replyEn) {
        calls, tierCalls := calls + [AskGroq(userMsgEn)], tierCalls + [AskGroq(userMsgEn)];
        replyEn := Some(svc.askGroq(userMsgEn));
      }
    }
    assert calls == inbound + tierCalls;
    assert MatchTiers(svc, bank, userMsgEn) == Run(Reply(replyEn.value), tierCalls);

    // 4. Translate back if needed
    var finalReply := replyEn.value;
    if detectedLang != English {
      calls := calls + [Translate(English, detectedLang, replyEn.value)];
      var translated := svc.translate(English, detectedLang, replyEn.value);
      if translated.Some? {
        finalReply := translated.value;
      }
    }
    outcome := Reply(finalReply);
  }
}
