/** The text generators (MainProg/core/text_generator.py): which prompt each
    one sends, what part of the source text the prompt embeds, and how the
    reply comes back. The service is the `Gateway` parameter. */
module TextGenerator {
  import opened Wrappers
  import opened PyDict
  import opened PyStr
  import opened LanguageData
  import opened Json
  import opened OpenAIClient

  /** The phrase each known text type asks the text to be formatted as. */
  const TextTypeMapping: Dict<string, string> := [
    ("Story", "a creative story"),
    ("Dialogue", "a dialogue between two or more people"),
    ("Letter", "a letter"),
    ("Article", "an article"),
    ("News", "a news article"),
    ("Informative", "an informative text")
  ]

  /** The format sentence for a phrase. */
  function FormatSentence(phrase: string): string {
    " Format the text as " + phrase + "."
  }

  /** The format clause of the text prompt: nothing for "General", the
      type's phrase for a known type, and an empty phrase for any other. */
  function FormatClause(textType: string): (r: string)
    ensures textType == "General" ==> r == ""
    ensures textType != "General" && HasKey(TextTypeMapping, textType)
            ==> r == FormatSentence(Get(TextTypeMapping, textType).value)
    ensures textType != "General" && !HasKey(TextTypeMapping, textType) ==> r == FormatSentence("")
  {
    if textType == "General" then "" else FormatSentence(GetOr(TextTypeMapping, textType, ""))
  }

  /** Every known text type gets its own phrase. */
  lemma FormatClauseKnown(i: nat)
    requires i < |TextTypeMapping|
    ensures FormatClause(TextTypeMapping[i].0) == FormatSentence(TextTypeMapping[i].1)
  {
    var m := TextTypeMapping;
    if i == 0 {
      GetEntry(m, 0);
    } else if i == 1 {
      GetEntry(m, 1);
    } else if i == 2 {
      GetEntry(m, 2);
    } else if i == 3 {
      GetEntry(m, 3);
    } else if i == 4 {
      GetEntry(m, 4);
    } else {
      GetEntry(m, 5);
    }
  }

  /** The clause is empty exactly for "General"; every other type, known
      or not, gets a format sentence. */
  lemma FormatClauseEmptyIff(textType: string)
    ensures FormatClause(textType) == "" <==> textType == "General"
  {
  }

  /** How much of the source text the summary and translation prompts embed. */
  const LongExcerpt: nat := 2000

  /** How much of the source text the key-word, question and exercise
      prompts embed. */
  const ShortExcerpt: nat := 1500

  /** The default number of comprehension questions. */
  const DefaultQuestionCount: int := 5

  /** The default number of exercises. */
  const DefaultExerciseCount: int := 3

  /** `text[:limit]`: the text itself when it is short enough, otherwise
      its first `limit` characters. */
  function Excerpt(text: string, limit: nat): (r: string)
    ensures r <= text
    ensures |r| <= limit
    ensures |text| <= limit <==> r == text
  {
    Take(text, limit)
  }

  /** The shorter excerpt is the start of the longer one. */
  lemma ExcerptsNest(text: string, short: nat, long: nat)
    requires short <= long
    ensures Excerpt(text, short) <= Excerpt(text, long)
  {
  }

  // ---------------------------------------------------------------------
  // Prompts
  // ---------------------------------------------------------------------

  /** The prompt of `generate_text`. */
  function TextPrompt(language: string, level: string, wordCount: int, topic: string,
                      textType: string): (p: Prompt)
    ensures p.TextPassage?
    ensures p.language == language && p.level == level && p.wordCount == wordCount && p.topic == topic
    ensures p.formatClause == FormatClause(textType)
  {
    TextPassage(LanguageName(language), level, wordCount, topic, FormatClause(textType))
  }

  /** The prompt of `get_topic_suggestion`. */
  function TopicPrompt(language: string, level: string): (p: Prompt)
    ensures p == TopicIdea(language, level)
  {
    TopicIdea(LanguageName(language), level)
  }

  /** The prompt of `generate_summary`: the first 2000 characters. */
  function SummaryPrompt(text: string, language: string, level: string): (p: Prompt)
    ensures p.Summary? && p.language == language && p.level == level
    ensures p.excerpt <= text && |p.excerpt| <= LongExcerpt
    ensures |text| <= LongExcerpt ==> p.excerpt == text
  {
    Summary(LanguageName(language), level, Excerpt(text, LongExcerpt))
  }

  /** The prompt of `extract_key_words`: the first 1500 characters. */
  function KeyWordsPrompt(text: string, language: string, level: string, count: int): (p: Prompt)
    ensures p.KeyWords? && p.language == language && p.level == level && p.count == count
    ensures p.excerpt <= text && |p.excerpt| <= ShortExcerpt
    ensures |text| <= ShortExcerpt ==> p.excerpt == text
  {
    KeyWords(LanguageName(language), level, count, Excerpt(text, ShortExcerpt))
  }

  /** The prompt of `generate_comprehension_questions`: the first 1500
      characters. */
  function QuestionsPrompt(text: string, language: string, level: string, count: int): (p: Prompt)
    ensures p.Questions? && p.language == language && p.level == level && p.count == count
    ensures p.excerpt <= text && |p.excerpt| <= ShortExcerpt
    ensures |text| <= ShortExcerpt ==> p.excerpt == text
  {
    Questions(LanguageName(language), level, count, Excerpt(text, ShortExcerpt))
  }

  /** The prompt of `generate_language_exercises`: the first 1500
      characters. */
  function ExercisesPrompt(text: string, language: string, level: string, count: int): (p: Prompt)
    ensures p.Exercises? && p.language == language && p.level == level && p.count == count
    ensures p.excerpt <= text && |p.excerpt| <= ShortExcerpt
    ensures |text| <= ShortExcerpt ==> p.excerpt == text
  {
    Exercises(LanguageName(language), level, count, Excerpt(text, ShortExcerpt))
  }

  /** The prompt of `generate_translation`: the first 2000 characters. */
  function TranslationPrompt(text: string, sourceLanguage: string, targetLanguage: string,
                             level: string): (p: Prompt)
    ensures p.Translation? && p.sourceLanguage == sourceLanguage && p.targetLanguage == targetLanguage
    ensures p.level == level
    ensures p.excerpt <= text && |p.excerpt| <= LongExcerpt
    ensures |text| <= LongExcerpt ==> p.excerpt == text
  {
    Translation(LanguageName(sourceLanguage), LanguageName(targetLanguage), level, Excerpt(text, LongExcerpt))
  }

  /** The study prompts see the start of what the summary prompt sees. */
  lemma StudyExcerptWithinSummary(text: string, language: string, level: string, count: int)
    ensures QuestionsPrompt(text, language, level, count).excerpt <= SummaryPrompt(text, language, level).excerpt
    ensures |text| > LongExcerpt ==> |SummaryPrompt(text, language, level).excerpt| == LongExcerpt
                                     && |QuestionsPrompt(text, language, level, count).excerpt| == ShortExcerpt
  {
  }

  // ---------------------------------------------------------------------
  // Generators
  // ---------------------------------------------------------------------

  /** `generate_text(...)`: the service's reply as it is, to a prompt for
      a passage in the given language and level, of the given length, on
      the given topic, with the type's format clause. */
  function GenerateText(gateway: Gateway, language: string, level: string, wordCount: int, topic: string,
                        textType: string): (r: Option<string>)
    ensures r == gateway(TextPassage(language, level, wordCount, topic, FormatClause(textType)))
  {
    gateway(TextPrompt(language, level, wordCount, topic, textType))
  }

  /** `get_topic_suggestion(...)`: the service's reply as it is, to a prompt
      carrying only the language and level. */
  function TopicSuggestion(gateway: Gateway, language: string, level: string): (r: Option<string>)
    ensures r == gateway(TopicIdea(language, level))
  {
    gateway(TopicPrompt(language, level))
  }

  /** `generate_summary(...)`: the service's reply as it is, to a prompt
      embedding the first 2000 characters of the text. */
  function GenerateSummary(gateway: Gateway, text: string, language: string, level: string): (r: Option<string>)
    ensures r == gateway(Summary(language, level, Excerpt(text, LongExcerpt)))
  {
    gateway(SummaryPrompt(text, language, level))
  }

  /** The tail shared by the generators that ask for JSON: no reply, or an
      empty one, gives `None`; any other reply is decoded leniently. */
  function JsonReply(gateway: Gateway, parse: Parser, p: Prompt): (r: Option<Decoded>)
    ensures r.None? <==> gateway(p).None? || gateway(p).value == ""
    ensures r.Some? ==> r.value == ParseJsonResponse(parse, gateway(p).value)
  {
    var result := gateway(p);
    if result.Some? && result.value != "" then Some(ParseJsonResponse(parse, result.value)) else None
  }

  /** What a JSON generator returns for the reply `reply` the service gave:
      `None` iff there is no reply or it is empty, otherwise its lenient
      decoding. */
  predicate JsonOutcome(r: Option<Decoded>, parse: Parser, reply: Option<string>) {
    (r.None? <==> reply.None? || reply.value == "")
    && (r.Some? ==> r.value == ParseJsonResponse(parse, reply.value))
  }

  /** `extract_key_words(...)`: asks for `count` words from the first 1500
      characters of the text. */
  function ExtractKeyWords(gateway: Gateway, parse: Parser, text: string, language: string, level: string,
                           count: int): (r: Option<Decoded>)
    ensures JsonOutcome(r, parse, gateway(KeyWords(language, level, count, Excerpt(text, ShortExcerpt))))
  {
    JsonReply(gateway, parse, KeyWordsPrompt(text, language, level, count))
  }

  /** `generate_comprehension_questions(...)`: asks for `count` questions
      (5 by default, `DefaultQuestionCount`) on the first 1500 characters. */
  function GenerateQuestions(gateway: Gateway, parse: Parser, text: string, language: string, level: string,
                             count: int): (r: Option<Decoded>)
    ensures JsonOutcome(r, parse, gateway(Questions(language, level, count, Excerpt(text, ShortExcerpt))))
  {
    JsonReply(gateway, parse, QuestionsPrompt(text, language, level, count))
  }

  /** `generate_language_exercises(...)`: asks for `count` exercises (3 by
      default, `DefaultExerciseCount`) on the first 1500 characters. */
  function GenerateExercises(gateway: Gateway, parse: Parser, text: string, language: string, level: string,
                             count: int): (r: Option<Decoded>)
    ensures JsonOutcome(r, parse, gateway(Exercises(language, level, count, Excerpt(text, ShortExcerpt))))
  {
    JsonReply(gateway, parse, ExercisesPrompt(text, language, level, count))
  }

  /** `generate_translation(...)`: asks to translate the first 2000
      characters from the source language into the target language. */
  function GenerateTranslation(gateway: Gateway, parse: Parser, text: string, sourceLanguage: string,
                               targetLanguage: string, level: string): (r: Option<Decoded>)
    ensures JsonOutcome(r, parse, gateway(Translation(sourceLanguage, targetLanguage, level, Excerpt(text, LongExcerpt))))
  {
    JsonReply(gateway, parse, TranslationPrompt(text, sourceLanguage, targetLanguage, level))
  }

  /** A reply that does not parse still counts: the generators hand back the
      raw reply text, never `None`, once the service answered. */
  lemma UnparsedReplyKept(gateway: Gateway, parse: Parser, p: Prompt)
    requires gateway(p).Some? && gateway(p).value != ""
    requires parse(Clean(gateway(p).value)).None?
    ensures JsonReply(gateway, parse, p) == Some(Raw(gateway(p).value))
  {
  }

  /** Whether the service wrapped its JSON in a "```json" fence or not, the
      generators return the same value. (An empty bare reply is `None`
      while its fenced form is not, hence `j != ""`.) */
  lemma FenceInvisible(gateway: Gateway, parse: Parser, p: Prompt, q: Prompt, j: string)
    requires j != "" && gateway(p) == Some(FencedReply(j)) && gateway(q) == Some(j)
    requires !StartsWith(Strip(j), JsonFence) && !EndsWith(Strip(j), Fence)
    requires parse(Strip(j)).Some?
    ensures JsonReply(gateway, parse, p) == JsonReply(gateway, parse, q) == Some(Parsed(parse(Strip(j)).value))
  {
    FencedAndBareAgree(parse, j);
  }
}
