/**
 * Document classification: the model is asked first and its answer is trusted only
 * when it is exactly AGREEMENT or LICENSE; everything else, including a model
 * UNKNOWN, is re-decided by the deterministic keyword search.
 */
module DocumentClassifier {
  import opened Wrappers
  import opened Strings
  import opened Schema

  const LICENSE_KEYWORDS: seq<string> := ["invoice", "payment", "license purchase", "subscription"]
  const AGREEMENT_KEYWORDS: seq<string> := ["contract", "agreement", "terms and conditions", "service level agreement"]

  /** `any(keyword in text for keyword in keywords)`. */
  predicate AnyKeyword(keywords: seq<string>, text: string) {
    exists j :: 0 <= j < |keywords| && Contains(text, keywords[j])
  }

  /** Some keyword occurs at some position of `text`. */
  ghost predicate Mentions(keywords: seq<string>, text: string) {
    exists k, i :: k in keywords && OccursAt(text, k, i)
  }

  lemma AnyKeywordIff(keywords: seq<string>, text: string)
    ensures AnyKeyword(keywords, text) <==> Mentions(keywords, text)
  {
    forall j | 0 <= j < |keywords| {
      ContainsIff(text, keywords[j]);
    }
  }

  /**
   * `fallback_classification(text)`: the keyword search by occurrence in the lower-cased
   * text. LICENSE whenever a license keyword occurs (whatever else occurs), AGREEMENT when
   * only agreement keywords occur, and UNKNOWN exactly when no keyword of either list occurs.
   */
  function FallbackClassification(text: string): (c: DocType)
    ensures c == License <==> Mentions(LICENSE_KEYWORDS, Lower(text))
    ensures c == Agreement <==> !Mentions(LICENSE_KEYWORDS, Lower(text)) && Mentions(AGREEMENT_KEYWORDS, Lower(text))
    ensures c == Unknown <==> !Mentions(LICENSE_KEYWORDS, Lower(text)) && !Mentions(AGREEMENT_KEYWORDS, Lower(text))
  {
    var lower := Lower(text);
    AnyKeywordIff(LICENSE_KEYWORDS, lower);
    AnyKeywordIff(AGREEMENT_KEYWORDS, lower);
    if AnyKeyword(LICENSE_KEYWORDS, lower) then License
    else if AnyKeyword(AGREEMENT_KEYWORDS, lower) then Agreement
    else Unknown
  }

  /** Matching is insensitive to letter case. */
  lemma FallbackIgnoresCase(text: string)
    ensures FallbackClassification(Lower(text)) == FallbackClassification(text)
  {
    LowerIdempotent(text);
  }

  /** LICENSE-first precedence on a text that names both an agreement and a subscription. */
  lemma ServiceLevelSubscription()
    ensures FallbackClassification("Service Level Agreement, subscription fee") == License
  {
    var text := "Service Level Agreement, subscription fee";
    var word := "subscription";
    assert text[25..37] == word;
    LowerSlice(text, 25, 37);
    assert Lower(word) == word;
    assert OccursAt(Lower(text), word, 25);
    assert word in LICENSE_KEYWORDS;
  }

  const PROMPT_HEAD: string :=
    "Analyze the following document and determine if the doc_type is an AGREEMENT or a LICENSE."
    + " Rules: invoice, payment, license purchase or subscription means LICENSE;"
    + " contract, agreement, terms and conditions or service level agreement means AGREEMENT;"
    + " if uncertain, UNKNOWN.\nDocument Text:\n"
  const PROMPT_TAIL: string := "\nYour response must be either 'AGREEMENT', 'LICENSE', or 'UNKNOWN'.\n"

  /** `init_prompt(text)`: the document text is embedded verbatim. */
  function InitPrompt(text: string): (prompt: string)
    ensures exists i :: OccursAt(prompt, text, i)
  {
    var prompt := PROMPT_HEAD + text + PROMPT_TAIL;
    assert OccursAt(prompt, text, |PROMPT_HEAD|);
    prompt
  }

  /**
   * `classify_document(text)`. `ask` is the model call for a prompt: the `doc_type` its
   * JSON reply carries, or `None` when the call raises, the reply is not JSON or has no
   * `doc_type`.
   */
  function ClassifyDocument(text: string, ask: string -> Option<string>): (c: DocType)
    ensures var answer := ask(InitPrompt(text));
      && (answer == Some("AGREEMENT") ==> c == Agreement)
      && (answer == Some("LICENSE") ==> c == License)
      && (answer != Some("AGREEMENT") && answer != Some("LICENSE") ==> c == FallbackClassification(text))
  {
    var answer := ask(InitPrompt(text));
    if answer == Some("AGREEMENT") then Agreement
    else if answer == Some("LICENSE") then License
    else FallbackClassification(text)
  }

  /**
   * The classification is UNKNOWN exactly when the model gave neither AGREEMENT nor LICENSE
   * and no keyword occurs in the text: a model UNKNOWN never decides on its own.
   */
  lemma ClassifyUnknownIff(text: string, ask: string -> Option<string>)
    ensures var answer := ask(InitPrompt(text));
      ClassifyDocument(text, ask) == Unknown <==>
        answer != Some("AGREEMENT") && answer != Some("LICENSE")
        && !Mentions(LICENSE_KEYWORDS, Lower(text)) && !Mentions(AGREEMENT_KEYWORDS, Lower(text))
  {
  }

  /** A model UNKNOWN is treated like a failed call: both go to the keyword search. */
  lemma ModelUnknownIsRedecided(text: string, ask: string -> Option<string>, failing: string -> Option<string>)
    requires ask(InitPrompt(text)) == Some("UNKNOWN")
    requires failing(InitPrompt(text)) == None
    ensures ClassifyDocument(text, ask) == ClassifyDocument(text, failing) == FallbackClassification(text)
  {
  }
}
