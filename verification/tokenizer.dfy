/**
 * Shaping of the morphological analyser's output and the part-of-speech
 * label tables (`crates/kumou-japanese/src/tokenizer.rs`).  The analyser
 * itself is a parameter: it turns a text into a list of raw tokens (a surface
 * and the IPADIC detail strings) or fails with a message.
 */
module Tokenizer {
  import opened Wrappers

  /** Part-of-speech information from IPADIC: the major category and three subcategories. */
  datatype PartOfSpeech = PartOfSpeech(major: string, sub1: string, sub2: string, sub3: string)

  /** A single analysed token with its grammar details. */
  datatype AnalyzedToken = AnalyzedToken(
    surface: string,
    pos: PartOfSpeech,
    conjugationType: string,
    conjugationForm: string,
    baseForm: string,
    reading: string,
    pronunciation: string)

  /** The result of analysing a sentence: the text and its tokens. */
  datatype AnalyzedSentence = AnalyzedSentence(text: string, tokens: seq<AnalyzedToken>)

  /** The errors of the analysis crate, each carrying the underlying message. */
  datatype AnalysisError = TokenizerInit(message: string) | Tokenization(message: string) | DataLoad(message: string)

  /** What the analyser yields per token: the surface and the detail strings, in IPADIC order. */
  datatype RawToken = RawToken(surface: string, details: seq<string>)

  /** IPADIC gives nine detail fields per token. */
  const FieldCount: nat := 9

  /** The placeholder IPADIC uses for an empty field, and the default for a missing one. */
  const Placeholder: string := "*"

  /**
   * The `get` closure: the `i`-th detail, or the placeholder when there are
   * fewer; so every field is either a detail of the token or the placeholder.
   */
  function Detail(details: seq<string>, i: nat): (r: string)
    ensures i < |details| ==> r == details[i]
    ensures r in details || r == Placeholder
  {
    if i < |details| then details[i] else Placeholder
  }

  /**
   * The nine named fields of a token, in IPADIC order: major, sub1, sub2,
   * sub3, conjugation type, conjugation form, base form, reading,
   * pronunciation.
   */
  function Fields(t: AnalyzedToken): (r: seq<string>)
    ensures |r| == FieldCount
  {
    [t.pos.major, t.pos.sub1, t.pos.sub2, t.pos.sub3,
     t.conjugationType, t.conjugationForm, t.baseForm, t.reading, t.pronunciation]
  }

  /** The first nine details, padded with the placeholder when there are fewer. */
  function Padded(details: seq<string>): (r: seq<string>)
    ensures |r| == FieldCount
  {
    seq(FieldCount, i requires 0 <= i < FieldCount => Detail(details, i))
  }

  /** The loop body of `analyze_sentence`: one raw token becomes one analysed token. */
  function ToAnalyzedToken(raw: RawToken): (t: AnalyzedToken)
    ensures t.surface == raw.surface
    ensures forall k :: 0 <= k < FieldCount ==>
              Fields(t)[k] == if k < |raw.details| then raw.details[k] else Placeholder
  {
    var get := (i: nat) => Detail(raw.details, i);
    AnalyzedToken(
      raw.surface,
      PartOfSpeech(get(0), get(1), get(2), get(3)),
      get(4), get(5), get(6), get(7), get(8))
  }

  /** The fields of a shaped token are the padded details; details past the ninth are dropped. */
  lemma ToAnalyzedTokenFields(raw: RawToken)
    ensures Fields(ToAnalyzedToken(raw)) == Padded(raw.details)
    ensures |raw.details| == FieldCount ==> Fields(ToAnalyzedToken(raw)) == raw.details
    ensures |raw.details| >= FieldCount ==> Fields(ToAnalyzedToken(raw)) == raw.details[..FieldCount]
    ensures |raw.details| == 0 ==> forall k :: 0 <= k < FieldCount ==> Fields(ToAnalyzedToken(raw))[k] == Placeholder
  {
    var f := Fields(ToAnalyzedToken(raw));
    assert forall k :: 0 <= k < FieldCount ==> f[k] == Padded(raw.details)[k];
  }

  /** Shaping loses nothing of a token: feeding its surface and fields back in gives it again. */
  lemma ToAnalyzedTokenRoundTrip(t: AnalyzedToken)
    ensures ToAnalyzedToken(RawToken(t.surface, Fields(t))) == t
  {
    var u := ToAnalyzedToken(RawToken(t.surface, Fields(t)));
    assert Fields(u)[0] == t.pos.major;
    assert Fields(u)[8] == t.pronunciation;
  }

  /**
   * `analyze_sentence`: a failure of the analyser becomes a `Tokenization`
   * error and nothing else; otherwise the text is kept as it is and each raw
   * token, in order, is shaped into one analysed token.
   */
  method AnalyzeSentence(tokenize: string -> Result<seq<RawToken>, string>, text: string)
    returns (r: Result<AnalyzedSentence, AnalysisError>)
    ensures tokenize(text).Err? ==> r == Err(Tokenization(tokenize(text).error))
    ensures tokenize(text).Ok? ==> r.Ok? && r.value.text == text
    ensures tokenize(text).Ok? ==> |r.value.tokens| == |tokenize(text).value|
    ensures tokenize(text).Ok? ==> forall j :: 0 <= j < |tokenize(text).value| ==>
              r.value.tokens[j] == ToAnalyzedToken(tokenize(text).value[j])
  {
    var tokensResult := tokenize(text);
    if tokensResult.Err? {
      return Err(Tokenization(tokensResult.error));
    }
    var raw := tokensResult.value;
    var analyzedTokens: seq<AnalyzedToken> := [];
    for i := 0 to |raw|
      invariant |analyzedTokens| == i
      invariant forall j :: 0 <= j < i ==> analyzedTokens[j] == ToAnalyzedToken(raw[j])
    {
      var details := raw[i].details;
      var get := (k: nat) => Detail(details, k);
      analyzedTokens := analyzedTokens + [AnalyzedToken(
        raw[i].surface,
        PartOfSpeech(get(0), get(1), get(2), get(3)),
        get(4), get(5), get(6), get(7), get(8))];
    }
    return Ok(AnalyzedSentence(text, analyzedTokens));
  }

  // ---------------------------------------------------------------------------
  // Label tables

  /** The major categories that have a colour class, and their classes. */
  const CssClasses: map<string, string> := map[
    "名詞" := "pos-noun",
    "動詞" := "pos-verb",
    "形容詞" := "pos-adjective",
    "副詞" := "pos-adverb",
    "助詞" := "pos-particle",
    "助動詞" := "pos-aux-verb",
    "接続詞" := "pos-conjunction",
    "感動詞" := "pos-interjection",
    "連体詞" := "pos-adnominal",
    "記号" := "pos-symbol"]

  /** The major categories that have an English label, and their labels. */
  const EnglishLabels: map<string, string> := map[
    "名詞" := "Noun",
    "動詞" := "Verb",
    "形容詞" := "i-Adjective",
    "形容動詞" := "na-Adjective",
    "副詞" := "Adverb",
    "助詞" := "Particle",
    "助動詞" := "Aux. Verb",
    "接続詞" := "Conjunction",
    "感動詞" := "Interjection",
    "連体詞" := "Adnominal",
    "記号" := "Symbol",
    "フィラー" := "Filler"]

  /** `pos_css_class`: the colour class of a major category, `pos-other` for any other string. */
  function PosCssClass(major: string): (r: string)
    ensures major in CssClasses ==> r == CssClasses[major]
    ensures major !in CssClasses ==> r == "pos-other"
  {
    match major
    case "名詞" => "pos-noun"
    case "動詞" => "pos-verb"
    case "形容詞" => "pos-adjective"
    case "副詞" => "pos-adverb"
    case "助詞" => "pos-particle"
    case "助動詞" => "pos-aux-verb"
    case "接続詞" => "pos-conjunction"
    case "感動詞" => "pos-interjection"
    case "連体詞" => "pos-adnominal"
    case "記号" => "pos-symbol"
    case _ => "pos-other"
  }

  /** `pos_english`: the English label of a major category, `Other` for any other string. */
  function PosEnglish(major: string): (r: string)
    ensures major in EnglishLabels ==> r == EnglishLabels[major]
    ensures major !in EnglishLabels ==> r == "Other"
  {
    match major
    case "名詞" => "Noun"
    case "動詞" => "Verb"
    case "形容詞" => "i-Adjective"
    case "形容動詞" => "na-Adjective"
    case "副詞" => "Adverb"
    case "助詞" => "Particle"
    case "助動詞" => "Aux. Verb"
    case "接続詞" => "Conjunction"
    case "感動詞" => "Interjection"
    case "連体詞" => "Adnominal"
    case "記号" => "Symbol"
    case "フィラー" => "Filler"
    case _ => "Other"
  }

  /** The major category a colour class stands for, if it stands for one. */
  function MajorOfCssClass(cls: string): (r: Option<string>)
  {
    match cls
    case "pos-noun" => Some("名詞")
    case "pos-verb" => Some("動詞")
    case "pos-adjective" => Some("形容詞")
    case "pos-adverb" => Some("副詞")
    case "pos-particle" => Some("助詞")
    case "pos-aux-verb" => Some("助動詞")
    case "pos-conjunction" => Some("接続詞")
    case "pos-interjection" => Some("感動詞")
    case "pos-adnominal" => Some("連体詞")
    case "pos-symbol" => Some("記号")
    case _ => None
  }

  /** The major category an English label stands for, if it stands for one. */
  function MajorOfEnglish(name: string): (r: Option<string>)
  {
    match name
    case "Noun" => Some("名詞")
    case "Verb" => Some("動詞")
    case "i-Adjective" => Some("形容詞")
    case "na-Adjective" => Some("形容動詞")
    case "Adverb" => Some("副詞")
    case "Particle" => Some("助詞")
    case "Aux. Verb" => Some("助動詞")
    case "Conjunction" => Some("接続詞")
    case "Interjection" => Some("感動詞")
    case "Adnominal" => Some("連体詞")
    case "Symbol" => Some("記号")
    case "Filler" => Some("フィラー")
    case _ => None
  }

  /**
   * Distinct listed categories get distinct colour classes, none of them the
   * fallback: the class of a listed category identifies it, and the fallback
   * identifies none.
   */
  lemma PosCssClassRoundTrip(major: string)
    ensures major in CssClasses ==> PosCssClass(major) != "pos-other" && MajorOfCssClass(PosCssClass(major)) == Some(major)
    ensures major !in CssClasses ==> MajorOfCssClass(PosCssClass(major)) == None
  {
  }

  /** Distinct listed categories get distinct English labels, none of them `Other`. */
  lemma PosEnglishRoundTrip(major: string)
    ensures major in EnglishLabels ==> PosEnglish(major) != "Other" && MajorOfEnglish(PosEnglish(major)) == Some(major)
    ensures major !in EnglishLabels ==> MajorOfEnglish(PosEnglish(major)) == None
  {
  }

  /**
   * Every category with a colour class has an English label; exactly two
   * labelled categories, 形容動詞 and フィラー, fall back to `pos-other`.
   */
  lemma CssClassesWithinLabels(major: string)
    ensures PosCssClass(major) != "pos-other" ==> PosEnglish(major) != "Other"
    ensures PosEnglish(major) != "Other" && PosCssClass(major) == "pos-other" <==> major == "形容動詞" || major == "フィラー"
  {
  }
}
