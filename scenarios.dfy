/** Single messages worked through the pipeline end to end. */
module Scenarios {
  import opened Wrappers
  import opened Text
  import opened QuestionBank
  import opened Services
  import opened Pipeline

  const FeverBank: Bank := [Entry("fever", map["en" := "Rest and hydrate."])]

  /** "Fever", detected as English, is answered from the bank by the exact
      tier; only the detector is called. */
  lemma FeverIsAnsweredExactly(svc: Services)
    requires DetectLanguage(svc, "Fever") == English
    ensures Resolve(svc, FeverBank, "Fever") == Run(Reply("Rest and hydrate."), [Detect("Fever")])
  {
    FeverMatchesExactly(svc);
    assert Strip("Fever") == "Fever" by { assert Stripped("Fever"); }
    EnglishSkipsTranslation(svc, FeverBank, "Fever");
  }

  lemma FeverMatchesExactly(svc: Services)
    ensures MatchTiers(svc, FeverBank, "Fever") == Run(Reply("Rest and hydrate."), [])
  {
    assert !IsGreeting("Fever") && SameIgnoringCase(FeverBank[0].question, "Fever") by {
      LowerFever();
    }
    ExactHitWins(svc, FeverBank, "Fever", 0);
  }

  lemma LowerFever()
    ensures Lower("Fever") == "fever" && Lower("fever") == "fever"
  {
    LowerFixesExactlyLowerCase("fever");
    assert Lower("Fever")[0] == 'f';
  }

  /** Surrounding whitespace and capitals do not hide a greeting. */
  lemma ShoutedGreeting(svc: Services, bank: Bank)
    requires DetectLanguage(svc, "HELLO") == English
    ensures Resolve(svc, bank, "  HELLO ") == Run(Reply(Introduction), [Detect("HELLO")])
  {
    StripsToHello();
    assert IsGreeting("HELLO") by { LowerHello(); }
    EnglishSkipsTranslation(svc, bank, "  HELLO ");
    GreetingShortCircuits(svc, bank, "HELLO", svc, bank);
  }

  lemma LowerHello()
    ensures Lower("HELLO") == "hello"
  {
    var l := Lower("HELLO");
    assert l[0] == 'h' && l[1] == 'e' && l[2] == 'l' && l[3] == 'l' && l[4] == 'o';
  }

  lemma StripsToHello()
    ensures Strip("  HELLO ") == "HELLO"
  {
    LeadsWithTwoSpaces();
    TrailsWithOneSpace();
    assert "  HELLO "[2..] == "HELLO ";
  }

  lemma LeadsWithTwoSpaces()
    ensures LeadingSpaces("  HELLO ") == 2
  {
    var once := "  HELLO "[1..];
    assert once == " HELLO ";
    assert once[1..] == "HELLO ";
    assert LeadingSpaces("HELLO ") == 0;
  }

  lemma TrailsWithOneSpace()
    ensures TrailingSpaces("HELLO ") == 1
  {
    assert "HELLO "[..5] == "HELLO";
    assert TrailingSpaces("HELLO") == 0;
  }

  /** The greeting tier comes before the bank: a question "Hi" in the bank is
      never answered from it. */
  lemma GreetingShadowsBankQuestion(svc: Services)
    requires DetectLanguage(svc, "hi") == English
    ensures Resolve(svc, [Entry("Hi", map["en" := "Hi there."])], "hi") == Run(Reply(Introduction), [Detect("hi")])
  {
    var bank := [Entry("Hi", map["en" := "Hi there."])];
    assert Strip("hi") == "hi" by { assert Stripped("hi"); }
    assert IsGreeting("hi") by { LowerFixesExactlyLowerCase("hi"); }
    EnglishSkipsTranslation(svc, bank, "hi");
    GreetingShortCircuits(svc, bank, "hi", svc, bank);
  }

  /** An exact hit without an English answer does not end resolution: the
      fuzzy matcher is asked next. */
  lemma MissingEnglishFallsThrough(svc: Services)
    ensures FuzzyMatch("fever") in MatchTiers(svc, [Entry("fever", map["hi" := "aaraam karen"])], "fever").calls
  {
    var bank := [Entry("fever", map["hi" := "aaraam karen"])];
    assert !IsGreeting("fever") && ExactReply(bank, "fever") == None by {
      LowerFever();
      assert FirstExact(bank, "fever") == Some(0);
    }
    FuzzyOnlyAfterExactMiss(svc, bank, "fever", "fever");
  }
}
