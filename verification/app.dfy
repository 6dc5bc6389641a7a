/** The request handlers of MainProg/app.py, reduced to what they compute:
    the story-part append step, the id checks of the story lookup and
    deletion endpoints, and the include-flag gating of the text endpoint.
    Request decoding and response rendering are not modelled; a handler
    returns the new session and a tagged outcome. */
module App {
  import opened Wrappers
  import opened PyDict
  import opened Json
  import opened OpenAIClient
  import opened LanguageData
  import opened StoryGenerator
  import opened TextGenerator
  import SessionManager
  import TextModel

  /** What an endpoint answers: an error with its HTTP status, or the
      payload of a successful call. */
  datatype Response =
    | Failure(status: int, error: string)
    | StoryPartCreated(part: Dict<string, JValue>, storyId: string)
    | StoryFound(story: SessionManager.StoredStory)
    | Deleted(message: string)
    | TextGenerated(text: Dict<string, JValue>)

  // ---------------------------------------------------------------------
  // Story parts
  // ---------------------------------------------------------------------

  /** The part dictionary the story endpoint stores for a reply: the
      reply's "story_text" as the text, the two choices and the final flag,
      each with its default when missing, and the choice made only when one
      was made. */
  function ReplyPart(reply: Dict<string, JValue>, choiceMade: string): (p: Part)
    ensures p.text == Member(reply, "story_text", JStr(""))
    ensures p.choice1 == Member(reply, "choice_1", JStr(""))
    ensures p.choice2 == Member(reply, "choice_2", JStr(""))
    ensures p.isFinal == Member(reply, "is_final", JBool(false))
    ensures p.choiceMade.Some? <==> choiceMade != ""
    ensures p.choiceMade.Some? ==> p.choiceMade.value == JStr(choiceMade)
  {
    Part(Member(reply, "story_text", JStr("")), Member(reply, "choice_1", JStr("")),
         Member(reply, "choice_2", JStr("")), Member(reply, "is_final", JBool(false)),
         if choiceMade != "" then Some(JStr(choiceMade)) else None)
  }

  /** Nothing makes a final part choice-free: a reply marked final that
      still offers two choices keeps both in the stored part. */
  lemma FinalPartKeepsChoices()
    ensures var p := ReplyPart([("story_text", JStr("t")), ("choice_1", JStr("x")),
                                ("choice_2", JStr("y")), ("is_final", JBool(true))], "c");
            p.isFinal == JBool(true) && p.choice1 == JStr("x") && p.choice2 == JStr("y")
  {
  }

  /** The story a new part goes into: the stored one, or a fresh one titled
      with the id, in the request's language and level, without parts. */
  function StoryFor(s: SessionManager.Session, storyId: string, language: string, level: string,
                    now: string): (st: SessionManager.StoredStory)
    ensures SessionManager.GetStory(s, storyId).Some? ==> st == SessionManager.GetStory(s, storyId).value
    ensures SessionManager.GetStory(s, storyId).None?
            ==> st == SessionManager.StoredStory(storyId, language, level, map[], now)
  {
    match SessionManager.GetStory(s, storyId)
    case Some(st) => st
    case None => SessionManager.StoredStory(storyId, language, level, map[], now)
  }

  /** The append step of the story endpoint: part `partNumber` of story
      `storyId` becomes the reply's part, the story is stamped `now`, and the
      story is saved. */
  function AppendStoryPart(s: SessionManager.Session, storyId: string, language: string, level: string,
                           partNumber: int, reply: Dict<string, JValue>, choiceMade: string,
                           now: string): (r: SessionManager.Session)
    ensures r.history == s.history && r.values == s.values
    ensures SessionManager.GetStory(r, storyId).Some?
    ensures var st := SessionManager.GetStory(r, storyId).value;
            var base := StoryFor(s, storyId, language, level, now);
            st.title == base.title && st.language == base.language && st.level == base.level
            && st.lastUpdated == now
            && partNumber in st.parts && st.parts[partNumber] == ReplyPart(reply, choiceMade)
            && (forall m :: m != partNumber ==> (m in st.parts <==> m in base.parts))
            && (forall m :: m != partNumber && m in base.parts ==> st.parts[m] == base.parts[m])
    ensures forall other :: other != storyId
              ==> SessionManager.GetStory(r, other) == SessionManager.GetStory(s, other)
  {
    var base := StoryFor(s, storyId, language, level, now);
    var story := base.(parts := base.parts[partNumber := ReplyPart(reply, choiceMade)], lastUpdated := now);
    SessionManager.SaveThenGet(s, storyId, story);
    SessionManager.SaveStory(s, storyId, story)
  }

  /** `data.get('story_id', topic)`: the story id when the request names
      one, else the topic. */
  function StoryIdOf(storyId: Option<string>, topic: string): (id: string)
    ensures storyId.None? ==> id == topic
    ensures storyId.Some? ==> id == storyId.value
  {
    storyId.GetOr(topic)
  }

  /** `api_generate_story_part`: generate the part, then append it. A
      failed generation (no reply, or an empty object) answers 500 and
      leaves the session as it was. */
  function StoryPartHandler(s: SessionManager.Session, gateway: Gateway, parse: Parser, language: string,
                            level: string, topic: string, partNumber: int, previousText: string,
                            choiceMade: string, storyId: Option<string>, now: string)
    : (r: (SessionManager.Session, Response))
    ensures var part := GenerateStoryPart(gateway, parse, language, level, topic, partNumber, previousText, choiceMade);
            (part.None? || part.value == []) <==> r.1.Failure?
    ensures r.1.Failure? ==> r == (s, Failure(500, "Failed to generate story part"))
    ensures r.1.StoryPartCreated? ==>
              var part := GenerateStoryPart(gateway, parse, language, level, topic, partNumber, previousText, choiceMade);
              var id := StoryIdOf(storyId, topic);
              r.1 == StoryPartCreated(part.value, id)
              && r.0 == AppendStoryPart(s, id, language, level, partNumber, part.value, choiceMade, now)
  {
    var part := GenerateStoryPart(gateway, parse, language, level, topic, partNumber, previousText, choiceMade);
    if part.None? || part.value == [] then (s, Failure(500, "Failed to generate story part"))
    else
      var id := StoryIdOf(storyId, topic);
      (AppendStoryPart(s, id, language, level, partNumber, part.value, choiceMade, now),
       StoryPartCreated(part.value, id))
  }

  /** A first part under a new id creates the story with only that part;
      nothing else in the session changes. */
  lemma FirstPartCreatesStory(s: SessionManager.Session, storyId: string, language: string, level: string,
                              partNumber: int, reply: Dict<string, JValue>, choiceMade: string, now: string)
    requires SessionManager.GetStory(s, storyId).None?
    ensures SessionManager.GetStory(AppendStoryPart(s, storyId, language, level, partNumber, reply, choiceMade, now), storyId)
            == Some(SessionManager.StoredStory(storyId, language, level,
                                               map[partNumber := ReplyPart(reply, choiceMade)], now))
  {
  }

  /** Appending to a stored story keeps its title, language and level
      (whatever the request says) and each of its other parts. */
  lemma LaterPartKeepsStory(s: SessionManager.Session, storyId: string, language: string, level: string,
                            partNumber: int, reply: Dict<string, JValue>, choiceMade: string, now: string)
    requires SessionManager.GetStory(s, storyId).Some?
    ensures var before := SessionManager.GetStory(s, storyId).value;
            var st := SessionManager.GetStory(AppendStoryPart(s, storyId, language, level, partNumber, reply, choiceMade, now), storyId).value;
            st.title == before.title && st.language == before.language && st.level == before.level
            && st.parts == before.parts[partNumber := ReplyPart(reply, choiceMade)]
  {
  }

  // ---------------------------------------------------------------------
  // Lookup and deletion
  // ---------------------------------------------------------------------

  /** The error for a missing or empty story id. */
  const IdRequired: Response := Failure(400, "Story ID is required")

  /** `story_id` is missing or empty. */
  predicate NoId(storyId: Option<string>) {
    storyId.None? || storyId.value == ""
  }

  /** `api_get_story` */
  function GetStoryHandler(s: SessionManager.Session, storyId: Option<string>): (r: Response)
    ensures NoId(storyId) ==> r == IdRequired
    ensures !NoId(storyId) && SessionManager.GetStory(s, storyId.value).None? ==> r == Failure(404, "Story not found")
    ensures !NoId(storyId) && SessionManager.GetStory(s, storyId.value).Some?
            ==> r == StoryFound(SessionManager.GetStory(s, storyId.value).value)
  {
    if NoId(storyId) then IdRequired
    else match SessionManager.GetStory(s, storyId.value)
      case None => Failure(404, "Story not found")
      case Some(st) => StoryFound(st)
  }

  /** `api_delete_story` */
  function DeleteStoryHandler(s: SessionManager.Session, storyId: Option<string>)
    : (r: (SessionManager.Session, Response))
    ensures NoId(storyId) ==> r == (s, IdRequired)
    ensures !NoId(storyId) && !HasKey(s.stories, storyId.value) ==> r == (s, Failure(500, "Failed to delete story"))
    ensures !NoId(storyId) && HasKey(s.stories, storyId.value)
            ==> r == (SessionManager.DeleteStory(s, storyId.value).0,
                      Deleted("Story '" + storyId.value + "' deleted successfully"))
  {
    if NoId(storyId) then (s, IdRequired)
    else
      var (t, ok) := SessionManager.DeleteStory(s, storyId.value);
      if !ok then (t, Failure(500, "Failed to delete story"))
      else (t, Deleted("Story '" + storyId.value + "' deleted successfully"))
  }

  /** A saved story is found under a non-empty id. */
  lemma SavedStoryFound(s: SessionManager.Session, storyId: string, story: SessionManager.StoredStory)
    requires storyId != ""
    ensures GetStoryHandler(SessionManager.SaveStory(s, storyId, story), Some(storyId)) == StoryFound(story)
  {
  }

  /** Once deleted, a story is not found, and deleting it again fails with
      500 and changes nothing. */
  lemma DeleteThenLookup(s: SessionManager.Session, storyId: string)
    requires storyId != "" && HasKey(s.stories, storyId)
    ensures var t := DeleteStoryHandler(s, Some(storyId)).0;
            GetStoryHandler(t, Some(storyId)) == Failure(404, "Story not found")
            && DeleteStoryHandler(t, Some(storyId)) == (t, Failure(500, "Failed to delete story"))
  {
  }

  // ---------------------------------------------------------------------
  // Text generation
  // ---------------------------------------------------------------------

  /** The include flags of a text request, each false when absent. */
  datatype Includes = Includes(summary: bool, keyWords: bool, questions: bool, exercises: bool,
                               translation: bool)

  /** The summary step: set when asked for and the service answered with a
      non-empty summary. */
  function WithSummary(g: TextModel.GeneratedText, gateway: Gateway, text: string, language: string,
                       level: string, wanted: bool): (r: TextModel.GeneratedText)
    ensures r.(summary := g.summary) == g
    ensures var reply := GenerateSummary(gateway, text, language, level);
            r.summary != g.summary ==> wanted && reply.Some? && reply.value != "" && r.summary == JStr(reply.value)
    ensures var reply := GenerateSummary(gateway, text, language, level);
            wanted && reply.Some? && reply.value != "" ==> r.summary == JStr(reply.value)
  {
    if wanted then
      var reply := GenerateSummary(gateway, text, language, level);
      if reply.Some? && reply.value != "" then g.(summary := JStr(reply.value)) else g
    else g
  }

  /** The decoded value of a JSON reply when it counts as an answer. */
  function Answer(reply: Option<Decoded>): (v: Option<JValue>)
    ensures v.Some? <==> reply.Some? && Truthy(reply.value.AsValue())
    ensures v.Some? ==> v.value == reply.value.AsValue()
  {
    if reply.Some? && Truthy(reply.value.AsValue()) then Some(reply.value.AsValue()) else None
  }

  /** The key-word step: the number of words asked for follows the level. */
  function WithKeyWords(g: TextModel.GeneratedText, gateway: Gateway, parse: Parser, text: string,
                        language: string, level: string, wanted: bool): (r: TextModel.GeneratedText)
    ensures r.(keyWords := g.keyWords) == g
    ensures var a := Answer(ExtractKeyWords(gateway, parse, text, language, level, DifficultyWordsCount(level)));
            (wanted && a.Some? ==> r.keyWords == TextModel.ListingOf(a.value))
            && (!(wanted && a.Some?) ==> r == g)
  {
    if wanted then
      match Answer(ExtractKeyWords(gateway, parse, text, language, level, DifficultyWordsCount(level)))
      case Some(v) => g.(keyWords := TextModel.ListingOf(v))
      case None => g
    else g
  }

  /** The questions step, corrected to keep the question list of a
      wrapped reply; MainProg/app.py:140 stores the reply object itself,
      which `TextModel.ListingOf` models. */
  function WithQuestions(g: TextModel.GeneratedText, gateway: Gateway, parse: Parser, text: string,
                         language: string, level: string, wanted: bool): (r: TextModel.GeneratedText)
    ensures r.(questions := g.questions) == g
    ensures var a := Answer(GenerateQuestions(gateway, parse, text, language, level, DefaultQuestionCount));
            (wanted && a.Some? ==> r.questions == TextModel.UnwrapListing(a.value, "questions"))
            && (!(wanted && a.Some?) ==> r == g)
  {
    if wanted then
      match Answer(GenerateQuestions(gateway, parse, text, language, level, DefaultQuestionCount))
      case Some(v) => g.(questions := TextModel.UnwrapListing(v, "questions"))
      case None => g
    else g
  }

  /** The exercises step, corrected to keep the exercise list of a
      wrapped reply; MainProg/app.py:145 stores the reply object itself,
      which `TextModel.ListingOf` models. */
  function WithExercises(g: TextModel.GeneratedText, gateway: Gateway, parse: Parser, text: string,
                         language: string, level: string, wanted: bool): (r: TextModel.GeneratedText)
    ensures r.(exercises := g.exercises) == g
    ensures var a := Answer(GenerateExercises(gateway, parse, text, language, level, DefaultExerciseCount));
            (wanted && a.Some? ==> r.exercises == TextModel.UnwrapListing(a.value, "exercises"))
            && (!(wanted && a.Some?) ==> r == g)
  {
    if wanted then
      match Answer(GenerateExercises(gateway, parse, text, language, level, DefaultExerciseCount))
      case Some(v) => g.(exercises := TextModel.UnwrapListing(v, "exercises"))
      case None => g
    else g
  }

  /** The translation step: only into a language other than the text's,
      and the translation language is recorded only with a translation. */
  function WithTranslation(g: TextModel.GeneratedText, gateway: Gateway, parse: Parser, text: string,
                           language: string, level: string, wanted: bool, target: string)
    : (r: TextModel.GeneratedText)
    ensures r.(translation := g.translation, translationLanguage := g.translationLanguage) == g
    ensures var a := Answer(GenerateTranslation(gateway, parse, text, language, target, level));
            (wanted && target != language && a.Some? ==>
               r.translation == TextModel.ListingOf(a.value) && r.translationLanguage == JStr(target))
            && (!(wanted && target != language && a.Some?) ==> r == g)
  {
    if wanted && target != language then
      match Answer(GenerateTranslation(gateway, parse, text, language, target, level))
      case Some(v) => g.(translation := TextModel.ListingOf(v), translationLanguage := JStr(target))
      case None => g
    else g
  }

  /** A translation into the text's own language is never requested: the
      step's outcome does not depend on the service at all. */
  lemma SameLanguageNotTranslated(g: TextModel.GeneratedText, gw1: Gateway, gw2: Gateway, parse: Parser,
                                  text: string, language: string, level: string, wanted: bool)
    ensures WithTranslation(g, gw1, parse, text, language, level, wanted, language) == g
    ensures WithTranslation(g, gw2, parse, text, language, level, wanted, language) == g
  {
  }

  /** A text request. `topic` is "" when the request names none, and
      `translationLanguage` is `None` when it names none. */
  datatype TextRequest = TextRequest(language: string, level: string, wordCount: int, topic: string,
                                     textType: string, includes: Includes,
                                     translationLanguage: Option<string>, saveHistory: bool)

  /** The topic the text is written on: the request's, or a suggested one. */
  function TopicOf(gateway: Gateway, req: TextRequest): (r: Option<string>)
    ensures req.topic != "" ==> r == Some(req.topic)
    ensures req.topic == "" ==> (r.Some? <==> TopicSuggestion(gateway, req.language, req.level).Some?
                                              && TopicSuggestion(gateway, req.language, req.level).value != "")
    ensures r.Some? ==> r.value != "" && (req.topic == "" ==> Some(r.value) == TopicSuggestion(gateway, req.language, req.level))
  {
    if req.topic != "" then Some(req.topic)
    else
      var t := TopicSuggestion(gateway, req.language, req.level);
      if t.Some? && t.value != "" then t else None
  }

  /** The record the text endpoint builds and enriches, before conversion.
      Questions and exercises go through the corrected steps, which keep
      the list a wrapped reply holds (MainProg/app.py:140 and 145 keep the
      whole reply object). */
  function BuildText(gateway: Gateway, parse: Parser, req: TextRequest, topic: string, text: string,
                     now: string): (g: TextModel.GeneratedText)
    ensures g.topic == JStr(topic) && g.text == JStr(text) && g.language == JStr(req.language)
    ensures g.level == JStr(req.level) && g.textType == JStr(req.textType) && g.wordCount == JNum(req.wordCount)
    ensures g.timestamp == JStr(now)
    ensures !req.includes.summary ==> g.summary == JNull
    ensures !req.includes.keyWords ==> g.keyWords == TextModel.Items([])
    ensures !req.includes.questions ==> g.questions == TextModel.Items([])
    ensures !req.includes.exercises ==> g.exercises == TextModel.Items([])
    ensures !req.includes.translation ==> g.translation == TextModel.Items([]) && g.translationLanguage == JNull
    ensures var reply := GenerateSummary(gateway, text, req.language, req.level);
            g.summary == if req.includes.summary && reply.Some? && reply.value != "" then JStr(reply.value) else JNull
    ensures var a := Answer(ExtractKeyWords(gateway, parse, text, req.language, req.level,
                                            DifficultyWordsCount(req.level)));
            g.keyWords == if req.includes.keyWords && a.Some? then TextModel.ListingOf(a.value) else TextModel.Items([])
    ensures var a := Answer(GenerateQuestions(gateway, parse, text, req.language, req.level, 5));
            g.questions == if req.includes.questions && a.Some? then TextModel.UnwrapListing(a.value, "questions")
                           else TextModel.Items([])
    ensures var a := Answer(GenerateExercises(gateway, parse, text, req.language, req.level, 3));
            g.exercises == if req.includes.exercises && a.Some? then TextModel.UnwrapListing(a.value, "exercises")
                           else TextModel.Items([])
    ensures var target := req.translationLanguage.GetOr("English");
            var a := Answer(GenerateTranslation(gateway, parse, text, req.language, target, req.level));
            if req.includes.translation && target != req.language && a.Some?
            then g.translation == TextModel.ListingOf(a.value) && g.translationLanguage == JStr(target)
            else g.translation == TextModel.Items([]) && g.translationLanguage == JNull
  {
    var inc := req.includes;
    var g0 := TextModel.NewText(JStr(topic), JStr(text), JStr(req.language), JStr(req.level),
                                JStr(req.textType), JNum(req.wordCount), now);
    var g1 := WithSummary(g0, gateway, text, req.language, req.level, inc.summary);
    var g2 := WithKeyWords(g1, gateway, parse, text, req.language, req.level, inc.keyWords);
    var g3 := WithQuestions(g2, gateway, parse, text, req.language, req.level, inc.questions);
    var g4 := WithExercises(g3, gateway, parse, text, req.language, req.level, inc.exercises);
    WithTranslation(g4, gateway, parse, text, req.language, req.level, inc.translation,
                    req.translationLanguage.GetOr("English"))
  }

  /** `api_generate_text`: a missing topic is suggested first; no topic or
      no text answers 500 with the session untouched; otherwise the record
      is built, converted, saved to the history when asked, and returned.
      A conversion error answers 500 with its message. The record is the
      one `BuildText` builds, with questions and exercises unwrapped. */
  function GenerateTextHandler(s: SessionManager.Session, gateway: Gateway, parse: Parser,
                               coerce: TextModel.ListCoercion, req: TextRequest, now: string)
    : (r: (SessionManager.Session, Response))
    ensures TopicOf(gateway, req).None? ==> r == (s, Failure(500, "Failed to generate topic"))
    ensures TopicOf(gateway, req).Some? ==>
              var text := GenerateText(gateway, req.language, req.level, req.wordCount, TopicOf(gateway, req).value, req.textType);
              ((text.None? || text.value == "") ==> r == (s, Failure(500, "Failed to generate text")))
              && (text.Some? && text.value != "" ==>
                    r == Finish(s, BuildText(gateway, parse, req, TopicOf(gateway, req).value, text.value, now),
                                coerce, req.saveHistory, now))
    ensures r.0.stories == s.stories && r.0.values == s.values
    ensures !r.1.TextGenerated? ==> r.0 == s
  {
    match TopicOf(gateway, req)
    case None => (s, Failure(500, "Failed to generate topic"))
    case Some(topic) =>
      var text := GenerateText(gateway, req.language, req.level, req.wordCount, topic, req.textType);
      if text.None? || text.value == "" then (s, Failure(500, "Failed to generate text"))
      else Finish(s, BuildText(gateway, parse, req, topic, text.value, now), coerce, req.saveHistory, now)
  }

  /** The end of the text endpoint: the record's dictionary is added to
      the history when asked for, unstamped since it carries its own
      timestamp, and returned; a conversion error answers 500 with its
      message and saves nothing. */
  function Finish(s: SessionManager.Session, g: TextModel.GeneratedText, coerce: TextModel.ListCoercion,
                  saveHistory: bool, now: string): (r: (SessionManager.Session, Response))
    ensures TextModel.ToDict(g, coerce).Raised? ==> r == (s, Failure(500, TextModel.ToDict(g, coerce).message))
    ensures TextModel.ToDict(g, coerce).Ok? ==> r.1 == TextGenerated(TextModel.ToDict(g, coerce).value)
    ensures r.0.stories == s.stories && r.0.values == s.values
    ensures r.1.TextGenerated? ==> r.0.history == if saveHistory then s.history + [r.1.text] else s.history
  {
    match TextModel.ToDict(g, coerce)
    case Raised(e) => (s, Failure(500, e))
    case Ok(d) =>
      TimestampKept(g, coerce, now);
      var t := if saveHistory then SessionManager.AddToHistory(s, d, now) else s;
      (t, TextGenerated(d))
  }

  /** A converted text carries its own timestamp, so the history stores it
      without a second stamp. */
  lemma TimestampKept(g: TextModel.GeneratedText, coerce: TextModel.ListCoercion, now: string)
    requires TextModel.ToDict(g, coerce).Ok?
    ensures HasKey(TextModel.ToDict(g, coerce).value, "timestamp")
    ensures SessionManager.Stamped(TextModel.ToDict(g, coerce).value, now) == TextModel.ToDict(g, coerce).value
  {
    var d := TextModel.ToDict(g, coerce).value;
    assert d[11].0 == "timestamp";
  }

  /** Without any include flag the record is the plain new text. */
  lemma NoIncludesBuild(gateway: Gateway, parse: Parser, req: TextRequest, topic: string, text: string,
                        now: string)
    requires req.includes == Includes(false, false, false, false, false)
    ensures BuildText(gateway, parse, req, topic, text, now)
            == TextModel.NewText(JStr(topic), JStr(text), JStr(req.language), JStr(req.level),
                                 JStr(req.textType), JNum(req.wordCount), now)
  {
  }

  /** Without any include flag the service is asked only for the topic and
      the text, and the endpoint answers with the plain text record. */
  lemma NoIncludesPlainText(s: SessionManager.Session, gateway: Gateway, parse: Parser,
                            coerce: TextModel.ListCoercion, req: TextRequest, now: string,
                            topic: string, text: string)
    requires req.includes == Includes(false, false, false, false, false)
    requires TopicOf(gateway, req) == Some(topic)
    requires GenerateText(gateway, req.language, req.level, req.wordCount, topic, req.textType) == Some(text)
    requires text != ""
    ensures GenerateTextHandler(s, gateway, parse, coerce, req, now)
            == Finish(s, TextModel.NewText(JStr(topic), JStr(text), JStr(req.language), JStr(req.level),
                                           JStr(req.textType), JNum(req.wordCount), now),
                      coerce, req.saveHistory, now)
  {
    NoIncludesBuild(gateway, parse, req, topic, text, now);
  }
}
