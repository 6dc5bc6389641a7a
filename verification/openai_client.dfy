/** The client side of the text-completion service: the bounded retry loop
    of `call_openai_api` and the lenient reply decoder `parse_json_response`
    (MainProg/api/openai_client.py). */
module OpenAIClient {
  import opened Wrappers
  import opened PyStr
  import opened Json

  /** `API_MAX_RETRIES`, the default retry budget. */
  const ApiMaxRetries: int := 3

  /** What the program asks the service for. Each constructor stands for one
      prompt template and carries exactly the text the template embeds; the
      wording around it is not modelled. Language fields hold the English
      language name the template prints. */
  datatype Prompt =
    | TextPassage(language: string, level: string, wordCount: int, topic: string, formatClause: string)
    | TopicIdea(language: string, level: string)
    | Summary(language: string, level: string, excerpt: string)
    | KeyWords(language: string, level: string, count: int, excerpt: string)
    | Questions(language: string, level: string, count: int, excerpt: string)
    | Exercises(language: string, level: string, count: int, excerpt: string)
    | Translation(sourceLanguage: string, targetLanguage: string, level: string, excerpt: string)
    | StoryOpening(language: string, level: string, topic: string)
    | StoryContinuation(language: string, level: string, previousText: string, choiceMade: string, partNumber: int)

  /** `call_openai_api(prompt, ...)` as a whole: the reply content, or `None`
      when every attempt failed. The service is outside the model. */
  type Gateway = Prompt -> Option<string>

  /** One call to the completion endpoint: the message content it answered
      with (which the service may leave empty as `None`), or an exception. */
  datatype Attempt = Answered(content: Option<string>) | Failed

  /** The retry loop of `call_openai_api`. `attempt(i)` is the outcome of the
      `i`-th call. Returns the reply and how many calls were made. */
  method CallApi(attempt: nat -> Attempt, maxRetries: int) returns (r: Option<string>, tries: nat)
    ensures maxRetries <= 0 ==> r == None && tries == 0
    ensures maxRetries > 0 ==> 1 <= tries <= maxRetries
    ensures forall i :: 0 <= i < tries - 1 ==> attempt(i).Failed?
    ensures tries > 0 && attempt(tries - 1).Answered? ==> r == attempt(tries - 1).content
    ensures tries > 0 && attempt(tries - 1).Failed? ==> r == None && tries == maxRetries
  {
    var retryCount: nat := 0;
    while retryCount < maxRetries
      invariant retryCount == 0 || retryCount < maxRetries
      invariant forall i :: 0 <= i < retryCount ==> attempt(i).Failed?
    {
      var a := attempt(retryCount);
      if a.Answered? {
        return a.content, retryCount + 1;
      }
      retryCount := retryCount + 1;
      if retryCount >= maxRetries {
        return None, retryCount;
      }
    }
    return None, 0;
  }

  /** The opening fence a reply may start with. */
  const JsonFence: string := "```json"

  /** The closing fence a reply may end with. */
  const Fence: string := "```"

  /** `s[7:]` when `s` starts with "```json", else `s`. */
  function DropJsonFence(s: string): (r: string)
    ensures StartsWith(s, JsonFence) ==> s == JsonFence + r
    ensures !StartsWith(s, JsonFence) ==> r == s
    ensures |r| <= |s|
  {
    if StartsWith(s, JsonFence) then s[|JsonFence|..] else s
  }

  /** `s[:-3]` when `s` ends with "```", else `s`. */
  function DropFence(s: string): (r: string)
    ensures EndsWith(s, Fence) ==> s == r + Fence
    ensures !EndsWith(s, Fence) ==> r == s
    ensures |r| <= |s|
  {
    if EndsWith(s, Fence) then s[..|s| - |Fence|] else s
  }

  /** The cleanup `parse_json_response` applies before parsing: strip, drop a
      leading "```json", drop a trailing "```", strip again. */
  function Clean(response: string): (r: string)
    ensures Stripped(r)
    ensures |r| <= |response|
  {
    Strip(DropFence(DropJsonFence(Strip(response))))
  }

  /** What `parse_json_response` returns: the parsed value, or the raw reply. */
  datatype Decoded = Parsed(value: JValue) | Raw(text: string) {

    /** The Python value: a raw reply is a `str`. */
    function AsValue(): JValue {
      match this
      case Parsed(v) => v
      case Raw(t) => JStr(t)
    }
  }

  /** `parse_json_response(response)`: the parse of the cleaned reply, or,
      when that does not parse, the ORIGINAL reply untouched. */
  function ParseJsonResponse(parse: Parser, response: string): (d: Decoded)
    ensures d.Parsed? <==> parse(Clean(response)).Some?
    ensures d.Parsed? ==> Some(d.value) == parse(Clean(response))
    ensures d.Raw? ==> d.text == response
  {
    match parse(Clean(response))
    case Some(v) => Parsed(v)
    case None => Raw(response)
  }

  lemma DropBothFences(body: string)
    ensures DropFence(DropJsonFence(JsonFence + body + Fence)) == body
  {
  }

  lemma FencedStripped(body: string)
    ensures Stripped(JsonFence + body + Fence)
  {
  }

  /** A reply fenced as "```json" ... "```", with any whitespace around the
      fences, cleans to the stripped body. */
  lemma CleanFenced(ws1: string, body: string, ws2: string)
    requires AllSpace(ws1) && AllSpace(ws2)
    ensures Clean(ws1 + JsonFence + body + Fence + ws2) == Strip(body)
  {
    var core := JsonFence + body + Fence;
    FencedStripped(body);
    assert ws1 + JsonFence + body + Fence + ws2 == ws1 + core + ws2;
    calc {
      Clean(ws1 + core + ws2);
      Strip(DropFence(DropJsonFence(Strip(ws1 + core + ws2))));
      { StripAround(ws1, core, ws2); }
      Strip(DropFence(DropJsonFence(core)));
      { DropBothFences(body); }
      Strip(body);
    }
  }

  /** A reply without fences cleans to itself stripped. */
  lemma CleanBare(j: string)
    requires !StartsWith(Strip(j), JsonFence) && !EndsWith(Strip(j), Fence)
    ensures Clean(j) == Strip(j)
  {
  }

  /** The usual fenced layout, fences on lines of their own. */
  function FencedReply(j: string): string {
    JsonFence + "\n" + j + "\n" + Fence
  }

  lemma CleanFencedReply(j: string)
    ensures Clean(FencedReply(j)) == Strip(j)
  {
    var nl := "\n";
    assert AllSpace(nl);
    var body := nl + j + nl;
    assert FencedReply(j) == "" + JsonFence + body + Fence + "";
    CleanFenced("", body, "");
    StripPadded(nl, j, nl);
  }

  /** The fenced form "```json\n<J>\n```" and the bare form <J> decode to the
      same value whenever <J> parses. */
  lemma FencedAndBareAgree(parse: Parser, j: string)
    requires !StartsWith(Strip(j), JsonFence) && !EndsWith(Strip(j), Fence)
    requires parse(Strip(j)).Some?
    ensures ParseJsonResponse(parse, FencedReply(j))
         == ParseJsonResponse(parse, j)
         == Parsed(parse(Strip(j)).value)
  {
    CleanFencedReply(j);
    CleanBare(j);
  }

  /** A reply that fails to parse comes back as the original text, fences and
      surrounding whitespace included. */
  lemma UnparsedKeepsOriginal(parse: Parser, response: string)
    requires parse(Clean(response)).None?
    ensures ParseJsonResponse(parse, response) == Raw(response)
  {
  }

  /** Only the "```json" opener is recognised: a plain "```" opener stays in
      the cleaned text, which therefore still begins with a fence. */
  lemma PlainFenceKept(j: string)
    requires |j| > 0 && Stripped(j)
    ensures Clean(Fence + "\n" + j + "\n" + Fence) == Fence + "\n" + j
  {
    var s := Fence + "\n" + j + "\n" + Fence;
    assert s[0] == '`' && s[|s| - 1] == '`';
    StripStripped(s);
    assert s[..|JsonFence|][3] == '\n';
    assert !StartsWith(s, JsonFence);
    var c := s[..|s| - |Fence|];
    assert s[|s| - |Fence|..] == Fence;
    assert c == "" + (Fence + "\n" + j) + "\n";
    assert AllSpace("\n");
    StripAround("", Fence + "\n" + j, "\n");
  }
}
