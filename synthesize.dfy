/**
 * The request-handling half of the `/synthesize` endpoint of server.py, up to
 * the point where the speech engine is started: input validation, the text
 * pipeline, the question flag, the voice preset and the model file. Whether
 * the model file exists on disk is a parameter.
 */
module Synthesize {
  import opened Chars
  import Markdown
  import Emojis
  import Prosody
  import Questions

  /** The engine's voice parameters, in hundredths (`length-scale`, `noise-scale`, `noise-w`). */
  datatype Preset = Preset(lengthScale: nat, noiseScale: nat, noiseW: nat)

  /** What the engine is started with once every check has passed. */
  datatype Plan = Plan(cleanText: string, question: bool, engineText: string, preset: Preset, modelPath: string)

  /** Why a request is refused; each refusal is an HTTP error whose detail `Detail` gives. */
  datatype Refusal =
    | EmptyText
    | NoLanguage
    | Unsupported(language: string)
    | EmptyAfterProcessing
    | ModelMissing(path: string)

  /** The refusal with its HTTP status, or the plan. */
  datatype Outcome = Rejected(status: nat, reason: Refusal) | Accepted(plan: Plan)

  /** The keys of `LANGUAGE_MODELS`, in insertion order. */
  const Languages: seq<string> := ["es", "en", "pt"]

  /**
   * `LANGUAGE_MODELS`: the voice model of each supported language; there is
   * one for exactly the keys, and each lies in the folder named after its
   * language.
   */
  function LanguageModel(language: string): (r: Option<string>)
    ensures r.Some? <==> language in Languages
    ensures r.Some? ==> language + "/" <= r.value
  {
    if language == "es" then Some("es/es_MX-claude-high")
    else if language == "en" then Some("en/en_GB-cori-high")
    else if language == "pt" then Some("pt/pt_BR-cadu-medium")
    else None
  }

  /** A supported language is never blank, so it passes the blank-language check. */
  lemma SupportedNotBlank(language: string)
    requires LanguageModel(language).Some?
    ensures Strip(language) != []
  {
    StripEmpty(language);
    assert !IsSpace(language[0]);
  }

  /** `", ".join(names)`. */
  function Join(names: seq<string>): string {
    if |names| == 0 then ""
    else if |names| == 1 then names[0]
    else names[0] + ", " + Join(names[1..])
  }

  /** The supported languages joined with ", ", in their insertion order. */
  const AvailableLanguages: string := Join(Languages)

  const QuestionPreset: Preset := Preset(115, 65, 85)

  const StatementPreset: Preset := Preset(115, 55, 70)

  function DigitValue(c: char): nat {
    if '0' <= c <= '9' then (c - '0') as nat else 0
  }

  function Digit(d: nat): (c: char)
    requires d < 10
    ensures '0' <= c <= '9' && DigitValue(c) == d
  {
    '0' + d as char
  }

  /** A preset value as the command-line argument, such as "0.65" for 65. */
  function Argument(h: nat): (r: string)
    requires h < 1000
    ensures |r| == 4 && r[1] == '.'
    ensures DigitValue(r[0]) * 100 + DigitValue(r[2]) * 10 + DigitValue(r[3]) == h
  {
    [Digit(h / 100), '.', Digit(h / 10 % 10), Digit(h % 10)]
  }

  /** The three voice arguments, in the order they are passed to the engine. */
  function PresetArguments(p: Preset): seq<string>
    requires p.lengthScale < 1000 && p.noiseScale < 1000 && p.noiseW < 1000
  {
    [Argument(p.lengthScale), Argument(p.noiseScale), Argument(p.noiseW)]
  }

  /** The preset for a text with or without a question, as the arguments the engine is given. */
  function PresetFor(question: bool): (p: Preset)
    ensures p.lengthScale < 1000 && p.noiseScale < 1000 && p.noiseW < 1000
    ensures PresetArguments(p) == if question then ["1.15", "0.65", "0.85"] else ["1.15", "0.55", "0.70"]
  {
    if question then QuestionPreset else StatementPreset
  }

  /**
   * Questions are read at the same speed as statements but with more tonal
   * and rhythmic variation; the arguments are "1.15 0.65 0.85" and
   * "1.15 0.55 0.70".
   */
  lemma PresetsCompared()
    ensures PresetFor(true).lengthScale == PresetFor(false).lengthScale
    ensures PresetFor(true).noiseScale > PresetFor(false).noiseScale
    ensures PresetFor(true).noiseW > PresetFor(false).noiseW
    ensures PresetArguments(PresetFor(true)) == ["1.15", "0.65", "0.85"]
    ensures PresetArguments(PresetFor(false)) == ["1.15", "0.55", "0.70"]
  {
  }

  /**
   * Where the model of a voice is looked for: `MODELS_DIR / f"{model}.onnx"`
   * with `MODELS_DIR` the relative folder `./models`, which the path prints as
   * `models`. The model name can be read back from the path.
   */
  function ModelPath(model: string): (p: string)
    ensures |p| == |model| + 12
    ensures p[..7] == "models/" && p[7..|p| - 5] == model && p[|p| - 5..] == ".onnx"
  {
    "models/" + model + ".onnx"
  }

  /**
   * The detail message of a refusal; the unsupported language and the missing
   * path are quoted verbatim at fixed offsets.
   */
  function Detail(r: Refusal): (d: string)
    ensures r.Unsupported? ==> |d| >= 10 + |r.language| && d[10..10 + |r.language|] == r.language
    ensures r.ModelMissing? ==> |d| >= 22 + |r.path| && d[22..22 + |r.path|] == r.path
  {
    match r
    case EmptyText => "Text cannot be empty"
    case NoLanguage => "Language must be specified"
    case Unsupported(language) =>
      "Language '" + language + "' not supported. Available languages: " + AvailableLanguages
    case EmptyAfterProcessing => "Text cannot be empty after processing"
    case ModelMissing(path) =>
      "Model file not found: " + path + ". Please ensure the model file exists in the models directory."
  }

  /** The kind of a refusal, as a number. */
  function Tag(r: Refusal): nat {
    match r
    case EmptyText => 0
    case NoLanguage => 1
    case Unsupported(_) => 2
    case EmptyAfterProcessing => 3
    case ModelMissing(_) => 4
  }

  /** Reads the kind of refusal back from a detail message. */
  function KindOf(d: string): nat {
    if |d| < 10 then 5
    else if d[0] == 'M' then 4
    else if d[0] == 'T' then (if |d| == 20 then 0 else 3)
    else if d[9] == 'm' then 1
    else 2
  }

  /** The detail message tells which kind of refusal it is. */
  lemma DetailKind(r: Refusal)
    ensures KindOf(Detail(r)) == Tag(r)
  {
    match r
    case Unsupported(l) =>
      assert Detail(r)[0] == 'L' && Detail(r)[9] == '\'';
    case ModelMissing(p) =>
      assert Detail(r)[0] == 'M';
    case _ =>
  }

  /** The detail of an unsupported language names that language. */
  lemma UnsupportedNamesLanguage(l1: string, l2: string)
    requires Detail(Unsupported(l1)) == Detail(Unsupported(l2))
    ensures l1 == l2
  {
    assert |l1| == |l2|;
  }

  /** The detail of a missing model names its path. */
  lemma MissingModelNamesPath(p1: string, p2: string)
    requires Detail(ModelMissing(p1)) == Detail(ModelMissing(p2))
    ensures p1 == p2
  {
    assert |p1| == |p2|;
  }

  /** Different refusals never share a detail message, so a client can tell them apart. */
  lemma DetailsDistinct(r1: Refusal, r2: Refusal)
    ensures Detail(r1) == Detail(r2) ==> r1 == r2
  {
    if Detail(r1) == Detail(r2) {
      DetailKind(r1);
      DetailKind(r2);
      if r1.Unsupported? {
        UnsupportedNamesLanguage(r1.language, r2.language);
      } else if r1.ModelMissing? {
        MissingModelNamesPath(r1.path, r2.path);
      }
    }
  }

  /** Markdown removed, emoji turned into stops, surrounding whitespace stripped. */
  function CleanText(text: string): (r: string)
    ensures Trimmed(r)
    ensures Emojis.NoEmoji(r)
  {
    var e := Emojis.ProcessEmojis(Markdown.CleanMarkdown(text));
    Emojis.StripNoEmoji(e);
    Strip(e)
  }

  /** Whitespace is one of the classes the engine does not pronounce. */
  lemma SpacesSilent()
    ensures forall c :: IsSpace(c) ==> Emojis.Silent(c)
  {
  }

  /**
   * Cleaning only deletes what is pronounced: apart from whitespace, periods
   * and emoji, the clean text is the request text with characters removed.
   */
  lemma CleanTextDeletes(text: string)
    ensures Subseq(Without(CleanText(text), Emojis.Silent), Without(text, Emojis.Silent))
  {
    var m := Markdown.CleanMarkdown(text);
    var e := Emojis.ProcessEmojis(m);
    SpacesSilent();
    Markdown.CleanMarkdownDeletes(text);
    SubseqWithout(Without(m, IsSpace), Without(text, IsSpace), Emojis.Silent);
    WithoutFiner(m, IsSpace, Emojis.Silent);
    WithoutFiner(text, IsSpace, Emojis.Silent);
    StripSpoken(e);
    WithoutWiden(Strip(e), e, IsSpace, Emojis.Silent);
  }

  /**
   * A text without markup characters is pronounced as written: cleaning
   * changes only whitespace, periods and emoji.
   */
  lemma PlainTextSpoken(text: string)
    requires forall k | 0 <= k < |text| :: !Markdown.Markup(text[k])
    ensures Without(CleanText(text), Emojis.Silent) == Without(text, Emojis.Silent)
  {
    var m := Markdown.CleanMarkdown(text);
    var e := Emojis.ProcessEmojis(m);
    SpacesSilent();
    Markdown.PlainTextKept(text);
    WithoutWiden(m, text, IsSpace, Emojis.Silent);
    StripSpoken(e);
    WithoutWiden(Strip(e), e, IsSpace, Emojis.Silent);
  }

  /**
   * The text the engine reads: the pause layout of `enhance_punctuation_pauses`,
   * and for a question also "..." before exactly the closing question marks
   * that do not follow a stop, after which every one does.
   */
  function EngineText(clean: string, question: bool): (r: string)
    ensures !question ==> r == Prosody.EnhancePauses(clean)
    ensures question ==> r == Questions.InsertDotsFrom(Prosody.EnhancePauses(clean), 0)
    ensures question ==> Questions.QuestionsPaused(r)
  {
    var paused := Prosody.EnhancePauses(clean);
    if question then Questions.EnhanceQuestions(paused) else paused
  }

  /**
   * The decisions of the `/synthesize` endpoint, in the order it takes them,
   * given the request and the text that comes out of the cleaning pipeline.
   * The cleaning is pure, so computing it before the language checks does not
   * change any answer; `Synthesize` supplies it.
   */
  function Respond(text: string, language: string, clean: string, modelExists: string -> bool): (o: Outcome)
    ensures o.Rejected? ==> o.status == 400
    ensures o.Accepted? ==>
      && LanguageModel(language).Some?
      && o.plan.cleanText == clean != []
      && o.plan.question == Questions.IsQuestion(clean)
      && o.plan.preset == PresetFor(o.plan.question)
      && o.plan.modelPath == ModelPath(LanguageModel(language).value)
      && modelExists(o.plan.modelPath)
  {
    if Strip(text) == [] then Rejected(400, EmptyText)
    else if Strip(language) == [] then Rejected(400, NoLanguage)
    else if LanguageModel(language).None? then Rejected(400, Unsupported(language))
    else if clean == [] then Rejected(400, EmptyAfterProcessing)
    else
      var question := Questions.IsQuestion(clean);
      var path := ModelPath(LanguageModel(language).value);
      if !modelExists(path) then Rejected(400, ModelMissing(path))
      else Accepted(Plan(clean, question, EngineText(clean, question), PresetFor(question), path))
  }

  /** The `/synthesize` endpoint up to the start of the engine. */
  function Synthesize(text: string, language: string, modelExists: string -> bool): (o: Outcome)
    ensures o.Accepted? ==>
      && o.plan.cleanText == CleanText(text)
      && Trimmed(o.plan.cleanText) && Emojis.NoEmoji(o.plan.cleanText)
  {
    Respond(text, language, CleanText(text), modelExists)
  }

  /** A text that is empty or whitespace only is refused first, whatever the language. */
  lemma BlankTextRejected(text: string, language: string, clean: string, modelExists: string -> bool)
    ensures Respond(text, language, clean, modelExists) == Rejected(400, EmptyText)
        <==> forall k | 0 <= k < |text| :: IsSpace(text[k])
  {
    StripEmpty(text);
  }

  /** With a text, an empty or whitespace-only language is refused next. */
  lemma BlankLanguageRejected(text: string, language: string, clean: string, modelExists: string -> bool)
    requires Strip(text) != []
    ensures Respond(text, language, clean, modelExists) == Rejected(400, NoLanguage)
        <==> forall k | 0 <= k < |language| :: IsSpace(language[k])
  {
    StripEmpty(language);
  }

  /** With a text and a language, a language without a model is refused, naming the supported ones. */
  lemma UnknownLanguageRejected(text: string, language: string, clean: string, modelExists: string -> bool)
    requires Strip(text) != [] && Strip(language) != []
    ensures Respond(text, language, clean, modelExists) == Rejected(400, Unsupported(language))
        <==> LanguageModel(language).None?
  {
  }

  /** A supported request whose text is all markup, emoji or whitespace is refused after cleaning. */
  lemma EmptyAfterProcessingRejected(text: string, language: string, clean: string, modelExists: string -> bool)
    requires Strip(text) != [] && LanguageModel(language).Some?
    ensures Respond(text, language, clean, modelExists) == Rejected(400, EmptyAfterProcessing) <==> clean == []
  {
    SupportedNotBlank(language);
  }

  /** Once the input is valid, the request is accepted exactly when the model file exists. */
  lemma ModelFileDecides(text: string, language: string, clean: string, modelExists: string -> bool)
    requires Strip(text) != [] && LanguageModel(language).Some? && clean != []
    ensures Respond(text, language, clean, modelExists).Accepted?
        <==> modelExists(ModelPath(LanguageModel(language).value))
    ensures !modelExists(ModelPath(LanguageModel(language).value)) ==>
      Respond(text, language, clean, modelExists) == Rejected(400, ModelMissing(ModelPath(LanguageModel(language).value)))
  {
    SupportedNotBlank(language);
  }

  /** Every refusal except the missing model is decided before the model directory is looked at. */
  lemma ValidationIgnoresModels(text: string, language: string, clean: string, m1: string -> bool, m2: string -> bool)
    requires !(Strip(text) != [] && LanguageModel(language).Some? && clean != [])
    ensures Respond(text, language, clean, m1) == Respond(text, language, clean, m2)
    ensures Respond(text, language, clean, m1).Rejected?
  {
  }

  /**
   * What an accepted request hands the engine: a statement gets the pause
   * layout of `enhance_punctuation_pauses` and the statement preset; a
   * question also gets an ellipsis before every closing question mark that
   * does not follow a stop, and the question preset.
   */
  lemma AcceptedEngineText(text: string, language: string, clean: string, modelExists: string -> bool)
    requires Respond(text, language, clean, modelExists).Accepted?
    ensures var p := Respond(text, language, clean, modelExists).plan;
      && (!p.question ==> p.engineText == Prosody.EnhancePauses(clean) && p.preset == StatementPreset)
      && (p.question ==> p.engineText == Questions.EnhanceQuestions(Prosody.EnhancePauses(clean)))
      && (p.question ==> Questions.QuestionsPaused(p.engineText) && p.preset == QuestionPreset)
      && (p.question <==> '¿' in clean || '?' in clean)
  {
  }

  /**
   * The languages with a model are exactly "es", "en" and "pt", and the
   * refusal of an unsupported language lists them in that order.
   */
  lemma SupportedLanguages(language: string)
    ensures LanguageModel(language).Some? <==> language in {"es", "en", "pt"}
    ensures AvailableLanguages == "es, en, pt"
  {
  }

  /** The Spanish voice is looked for under the models directory. */
  lemma SpanishModelPath()
    ensures ModelPath(LanguageModel("es").value) == "models/es/es_MX-claude-high.onnx"
  {
  }
}
