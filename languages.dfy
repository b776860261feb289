/**
 * Language-code guessing for the "translate column" dialog: the source and target language fields
 * are pre-filled from the names of the source and target columns.
 */
module Languages {
  import opened Text

  /** The codes the guess can produce, in the order the rules are tried. */
  const Codes: seq<string> := ["EN", "ZH", "JA", "KO"]

  /** The word each code is recognised by, position by position with `Codes`. */
  const Keywords: seq<string> := ["english", "chinese", "japanese", "korean"]

  /**
   * The nested `detect_lang_code(name)`: the first of English, Chinese, Japanese, Korean whose
   * word occurs in the lower-cased name, or whose code is the whole lower-cased name; `""` when
   * none matches.
   */
  function DetectLangCode(name: string): (r: string)
    ensures r == "" || r in Codes
  {
    var lowered := Lower(name);
    if Contains(lowered, "english") || lowered == "en" then "EN"
    else if Contains(lowered, "chinese") || lowered == "zh" then "ZH"
    else if Contains(lowered, "japanese") || lowered == "ja" then "JA"
    else if Contains(lowered, "korean") || lowered == "ko" then "KO"
    else ""
  }

  /** The codes as the lower-cased name is compared with them. */
  const LoweredCodes: seq<string> := ["en", "zh", "ja", "ko"]

  /** Rule `k` of the table matches: its word occurs in the lower-cased name or its code, lower-cased, is the whole of it. */
  predicate RuleMatches(name: string, k: nat)
    requires k < |Codes|
  {
    Contains(Lower(name), Keywords[k]) || Lower(name) == LoweredCodes[k]
  }

  /** `LoweredCodes` is `Codes` lower-cased. */
  lemma LowerCodes()
    ensures forall k :: 0 <= k < |Codes| ==> Lower(Codes[k]) == LoweredCodes[k]
  {
    assert Lower("EN") == [LowerChar('E')] + Lower("N");
    assert Lower("ZH") == [LowerChar('Z')] + Lower("H");
    assert Lower("JA") == [LowerChar('J')] + Lower("A");
    assert Lower("KO") == [LowerChar('K')] + Lower("O");
  }

  /**
   * First match wins: the guess is code `k` exactly when rule `k` matches and no earlier rule
   * does, and it is `""` exactly when no rule matches.
   */
  lemma DetectIsFirstMatch(name: string)
    ensures forall k :: 0 <= k < |Codes| ==>
      (DetectLangCode(name) == Codes[k] <==> RuleMatches(name, k) && forall j :: 0 <= j < k ==> !RuleMatches(name, j))
    ensures DetectLangCode(name) == "" <==> forall k :: 0 <= k < |Codes| ==> !RuleMatches(name, k)
  {
    var lowered := Lower(name);
    assert RuleMatches(name, 0) == (Contains(lowered, "english") || lowered == "en");
    assert RuleMatches(name, 1) == (Contains(lowered, "chinese") || lowered == "zh");
    assert RuleMatches(name, 2) == (Contains(lowered, "japanese") || lowered == "ja");
    assert RuleMatches(name, 3) == (Contains(lowered, "korean") || lowered == "ko");
    forall k | 0 <= k < |Codes|
      ensures DetectLangCode(name) == Codes[k] <==> RuleMatches(name, k) && forall j :: 0 <= j < k ==> !RuleMatches(name, j)
    {
      if k == 0 {
      } else if k == 1 {
      } else if k == 2 {
      } else {
      }
    }
  }

  /** The guess ignores case: lower-casing the name first changes nothing. */
  lemma DetectIgnoresCase(name: string)
    ensures DetectLangCode(Lower(name)) == DetectLangCode(name)
  {
    LowerIdempotent(name);
  }

  /** A column named by a code, in either case, is recognised as that code. */
  lemma DetectRecognisesCodes(k: nat)
    requires k < |Codes|
    ensures DetectLangCode(Codes[k]) == Codes[k]
    ensures DetectLangCode(Lower(Codes[k])) == Codes[k]
  {
    LowerCodes();
    var code := Codes[k];
    var lowered := Lower(code);
    LowerIdempotent(code);
    assert |lowered| == 2;
    LongerNotContained(lowered, "english");
    LongerNotContained(lowered, "chinese");
    LongerNotContained(lowered, "japanese");
    LongerNotContained(lowered, "korean");
  }

  /** A name mentioning English is guessed as English whatever else it mentions. */
  lemma EnglishWins(name: string)
    requires Contains(Lower(name), "english")
    ensures DetectLangCode(name) == "EN"
  {
  }

  /** The source-language default: the guess from the source column's name, else `EN`. */
  function DefaultSourceLang(sourceName: string): (r: string)
    ensures r in Codes
    ensures DetectLangCode(sourceName) != "" ==> r == DetectLangCode(sourceName)
    ensures DetectLangCode(sourceName) == "" ==> r == "EN"
  {
    var guess := DetectLangCode(sourceName);
    if guess != "" then guess else "EN"
  }

  /** The target-language default: the guess from the target column's name, else `KO`. */
  function DefaultTargetLang(targetName: string): (r: string)
    ensures r in Codes
    ensures DetectLangCode(targetName) != "" ==> r == DetectLangCode(targetName)
    ensures DetectLangCode(targetName) == "" ==> r == "KO"
  {
    var guess := DetectLangCode(targetName);
    if guess != "" then guess else "KO"
  }

  /**
   * `update_source_lang`: when another source column is chosen, the source-language field takes
   * the guess from its name, and keeps what it holds when there is no guess.
   */
  function UpdatedSourceLang(field: string, sourceName: string): (r: string)
    ensures r == field || r in Codes
    ensures DetectLangCode(sourceName) != "" ==> r == DetectLangCode(sourceName)
    ensures DetectLangCode(sourceName) == "" ==> r == field
  {
    var guess := DetectLangCode(sourceName);
    if guess != "" then guess else field
  }
}
