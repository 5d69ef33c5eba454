/** The four outside services the webhook calls, as oracles: whatever each
    would return is given in advance as a function of its arguments. The
    detector and the translator may raise, which app.py catches; the fuzzy
    matcher and the AI model are taken never to raise, since app.py does not
    catch a raise from them. */
module Services {
  import opened Wrappers

  datatype Services = Services(
    /** `detect(text)` from langdetect; `None` when it raises. */
    detect: string -> Option<string>,
    /** `GoogleTranslator(source=s, target=t).translate(text)`, as a function
        of `(s, t, text)`; `None` when it raises. */
    translate: (string, string, string) -> Option<string>,
    /** `fuzzy_match(text)`: a question name, or `None`; never raises. */
    fuzzyMatch: string -> Option<string>,
    /** `ask_groq(text)`: the text the generative model answers; never
        raises. */
    askGroq: string -> string)

  /** One call into a service, with its arguments, in the order made. */
  datatype Call =
    | Detect(text: string)
    | Translate(source: string, target: string, text: string)
    | FuzzyMatch(text: string)
    | AskGroq(text: string)
}
