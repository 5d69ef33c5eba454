/** The response bank (`responses` in app.py): a dictionary from question
    strings to a dictionary of answers by language code. A Python dict keeps
    insertion order, and the exact tier depends on that order, so the bank is
    a sequence of entries. */
module QuestionBank {
  import opened Wrappers
  import opened Text

  datatype Entry = Entry(question: string, answers: map<string, string>)

  type Bank = seq<Entry>

  /** A well-formed Python dict: no key occurs twice. */
  predicate IsDict(bank: Bank) {
    forall i, j :: 0 <= i < j < |bank| ==> bank[i].question != bank[j].question
  }

  /** `responses.keys()`, in iteration order. */
  function Keys(bank: Bank): seq<string> {
    seq(|bank|, i requires 0 <= i < |bank| => bank[i].question)
  }

  /** `[q.lower() for q in responses.keys()]`. */
  function LowerKeys(bank: Bank): seq<string> {
    seq(|bank|, i requires 0 <= i < |bank| => Lower(bank[i].question))
  }

  /** `ans.get("en")`: the English answer of an entry, `None` when the entry
      has none. */
  function EnglishAnswer(e: Entry): Option<string> {
    if "en" in e.answers then Some(e.answers["en"]) else None
  }

  /** Case-insensitive equality as the exact tier tests it:
      `q.lower() == user_msg_en.lower()`. */
  predicate SameIgnoringCase(a: string, b: string) {
    Lower(a) == Lower(b)
  }

  /** The position at which the exact-tier loop stops: the first entry, in
      bank order, whose question equals `u` ignoring case. */
  function FirstExact(bank: Bank, u: string): (r: Option<nat>)
    ensures r.Some? ==> r.value < |bank| && SameIgnoringCase(bank[r.value].question, u)
    ensures r.Some? ==> forall j :: 0 <= j < r.value ==> !SameIgnoringCase(bank[j].question, u)
    ensures r.None? <==> forall j :: 0 <= j < |bank| ==> !SameIgnoringCase(bank[j].question, u)
  {
    if bank == [] then None
    else if SameIgnoringCase(bank[0].question, u) then Some(0)
    else match FirstExact(bank[1..], u)
      case None => None
      case Some(i) => Some(i + 1)
  }

  /** `responses[k]`: the entry whose key is exactly `k`, `None` where Python
      would raise `KeyError`. */
  function Lookup(bank: Bank, k: string): (r: Option<Entry>)
    ensures r.Some? <==> k in Keys(bank)
    ensures r.Some? ==> r.value in bank && r.value.question == k
  {
    if bank == [] then None
    else
      assert Keys(bank) == [bank[0].question] + Keys(bank[1..]);
      if bank[0].question == k then Some(bank[0]) else Lookup(bank[1..], k)
  }

  /** In a well-formed dict the entry `responses[k]` is the one stored under
      `k`. */
  lemma LookupInDict(bank: Bank, i: nat)
    requires IsDict(bank) && i < |bank|
    ensures Lookup(bank, bank[i].question) == Some(bank[i])
  {
    var r := Lookup(bank, bank[i].question);
    assert bank[i].question == Keys(bank)[i];
    var j :| 0 <= j < |bank| && bank[j] == r.value;
  }

  /** The guard at the head of the exact tier (`user_msg_en.lower() in
      [q.lower() for q in responses.keys()]`) holds exactly when the loop
      after it finds a key. */
  lemma {:induction false} GuardMeansFound(bank: Bank, u: string)
    ensures Lower(u) in LowerKeys(bank) <==> FirstExact(bank, u).Some?
  {
    if bank != [] {
      GuardMeansFound(bank[1..], u);
      assert LowerKeys(bank) == [Lower(bank[0].question)] + LowerKeys(bank[1..]);
    }
  }

  /** The reply the exact tier leaves in `reply_en` (lines 30-36): the
      English answer of the first entry matching ignoring case, or `None`. */
  function ExactReply(bank: Bank, u: string): Option<string> {
    match FirstExact(bank, u)
    case None => None
    case Some(i) => EnglishAnswer(bank[i])
  }
}
