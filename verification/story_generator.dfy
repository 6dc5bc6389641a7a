/** Interactive stories (MainProg/core/story_generator.py): generating one
    part through the completion service, and the `Story` aggregate whose
    parts are numbered `part_1`, `part_2`, ... */
module StoryGenerator {
  import opened Wrappers
  import opened PyDict
  import opened PyStr
  import opened IntSets
  import opened Json
  import opened LanguageData
  import opened OpenAIClient

  // ---------------------------------------------------------------------
  // Generating a part
  // ---------------------------------------------------------------------

  /** The prompt `generate_story_part` sends: the opening template for part
      1, the continuation template (previous text, the reader's choice and
      the part number) for every other part number. */
  function StoryPrompt(language: string, level: string, topic: string, partNumber: int,
                       previousText: string, choiceMade: string): (p: Prompt)
    ensures p.StoryOpening? <==> partNumber == 1
    ensures p.StoryOpening? ==> p.language == language && p.level == level && p.topic == topic
    ensures p.StoryContinuation? ==>
              p.language == language && p.level == level && p.previousText == previousText
              && p.choiceMade == choiceMade && p.partNumber == partNumber
  {
    var name := LanguageName(language);
    if partNumber == 1 then StoryOpening(name, level, topic)
    else StoryContinuation(name, level, previousText, choiceMade, partNumber)
  }

  /** The JSON fields a story prompt asks the service to fill in. */
  function RequestedFields(p: Prompt): seq<string> {
    match p
    case StoryOpening(_, _, _) => ["story_text", "choice_1", "choice_2"]
    case StoryContinuation(_, _, _, _, _) => ["story_text", "choice_1", "choice_2", "is_final"]
    case _ => []
  }

  /** Only a continuation asks whether the story ends here. */
  lemma IsFinalRequested(language: string, level: string, topic: string, partNumber: int,
                         previousText: string, choiceMade: string)
    ensures "is_final" in RequestedFields(StoryPrompt(language, level, topic, partNumber, previousText, choiceMade))
            <==> partNumber != 1
  {
  }

  lemma FieldsIsFinal(p: Prompt)
    ensures "is_final" in RequestedFields(p) <==> p.StoryContinuation?
  {
  }

  /** `generate_story_part`: the decoded reply when the service answered
      with a non-empty text that decodes to a JSON object, `None` otherwise
      (no answer, an empty answer, unparseable text, or a non-object value). */
  function GenerateStoryPart(gateway: Gateway, parse: Parser, language: string, level: string,
                             topic: string, partNumber: int, previousText: string,
                             choiceMade: string): (r: Option<Dict<string, JValue>>)
    ensures var reply := gateway(StoryPrompt(language, level, topic, partNumber, previousText, choiceMade));
            r.Some? <==> (reply.Some? && reply.value != ""
                          && parse(Clean(reply.value)).Some? && parse(Clean(reply.value)).value.JObj?)
    ensures var reply := gateway(StoryPrompt(language, level, topic, partNumber, previousText, choiceMade));
            r.Some? ==> parse(Clean(reply.value)) == Some(JObj(r.value))
  {
    var result := gateway(StoryPrompt(language, level, topic, partNumber, previousText, choiceMade));
    if result.Some? && result.value != "" then
      match ParseJsonResponse(parse, result.value)
      case Parsed(JObj(members)) => Some(members)
      case _ => None
    else None
  }

  // ---------------------------------------------------------------------
  // Part keys
  // ---------------------------------------------------------------------

  /** `f"part_{n}"` */
  function PartKey(n: int): string {
    "part_" + IntToString(n)
  }

  /** `int(key.split('_')[1])`: `None` where Python raises `IndexError`
      (no underscore) or `ValueError` (not a number). */
  function PartNumber(key: string): Option<int> {
    var fields := Split(key, '_');
    if |fields| < 2 then None else ParseInt(fields[1])
  }

  /** The number a part is stored under is the number its key parses back to. */
  lemma PartKeyRoundTrip(n: int)
    ensures PartNumber(PartKey(n)) == Some(n)
  {
    var digits := IntToString(n);
    assert forall i :: 0 <= i < |digits| ==> digits[i] != '_';
    assert PartKey(n) == "part" + ['_'] + digits;
    SplitOnce("part", '_', digits);
    IntRoundTrip(n);
  }

  /** Distinct part numbers get distinct keys. */
  lemma PartKeyInjective(m: int, n: int)
    ensures PartKey(m) == PartKey(n) <==> m == n
  {
    PartKeyRoundTrip(m);
    PartKeyRoundTrip(n);
  }

  // ---------------------------------------------------------------------
  // The Story aggregate
  // ---------------------------------------------------------------------

  /** One stored part. Field values are whatever was stored: strings and a
      boolean from `add_part`, raw reply values from the story endpoint.
      `choiceMade` is absent when the dictionary has no "choice_made" entry. */
  datatype Part = Part(text: JValue, choice1: JValue, choice2: JValue, isFinal: JValue, choiceMade: Option<JValue>)

  /** A story; `parts[n]` is the part stored under key `part_<n>`. */
  datatype Story = Story(title: JValue, language: JValue, level: JValue, parts: map<int, Part>,
                         vocabulary: JValue, translation: JValue, translationLanguage: JValue)

  /** `Story(title, language, level)` */
  function NewStory(title: string, language: string, level: string): Story {
    Story(JStr(title), JStr(language), JStr(level), map[], JNull, JNull, JNull)
  }

  /** The part dictionary `add_part` builds: "choice_made" only for a
      non-empty choice. */
  function MakePart(text: string, choice1: string, choice2: string, isFinal: bool, choiceMade: string): (p: Part)
    ensures p.text == JStr(text) && p.choice1 == JStr(choice1) && p.choice2 == JStr(choice2)
    ensures p.isFinal == JBool(isFinal)
    ensures p.choiceMade.Some? <==> choiceMade != ""
    ensures p.choiceMade.Some? ==> p.choiceMade.value == JStr(choiceMade)
  {
    Part(JStr(text), JStr(choice1), JStr(choice2), JBool(isFinal),
         if choiceMade != "" then Some(JStr(choiceMade)) else None)
  }

  /** `story.add_part(n, ...)`: the story with the new part stored under
      number `n`, and the part itself. */
  function AddPart(s: Story, n: int, text: string, choice1: string, choice2: string,
                   isFinal: bool, choiceMade: string): (r: (Story, Part))
    ensures r.1 == MakePart(text, choice1, choice2, isFinal, choiceMade)
    ensures n in r.0.parts && r.0.parts[n] == r.1
    ensures forall m :: m != n ==> (m in r.0.parts <==> m in s.parts)
    ensures forall m :: m != n && m in s.parts ==> r.0.parts[m] == s.parts[m]
    ensures r.0.(parts := s.parts) == s
  {
    var p := MakePart(text, choice1, choice2, isFinal, choiceMade);
    (s.(parts := s.parts[n := p]), p)
  }

  // ---------------------------------------------------------------------
  // Story text
  // ---------------------------------------------------------------------

  /** A part takes part in `get_current_text(up_to)` when its number is at
      most `up_to`, or always when no bound is given. */
  predicate Included(n: int, upTo: Option<int>) {
    upTo.None? || n <= upTo.value
  }

  /** The part numbers `get_current_text(up_to)` visits before it stops. */
  function Eligible(parts: map<int, Part>, upTo: Option<int>): set<int> {
    set n | n in parts && Included(n, upTo)
  }

  /** Every number in `ks` has a part. */
  predicate Listed(parts: map<int, Part>, ks: seq<int>) {
    forall i :: 0 <= i < |ks| ==> ks[i] in parts
  }

  /** The texts of the parts `ks`, in that order, each followed by a blank
      line. `None` where Python raises `TypeError` because a text is not a
      string. */
  function PartsText(parts: map<int, Part>, ks: seq<int>): Option<string>
    requires Listed(parts, ks)
  {
    if |ks| == 0 then Some("")
    else
      var front := PartsText(parts, ks[..|ks| - 1]);
      var last := parts[ks[|ks| - 1]].text;
      if front.Some? && last.JStr? then Some(front.value + last.s + "\n\n") else None
  }

  /** The text is defined exactly when every listed part's text is a string. */
  lemma {:induction false} PartsTextDefined(parts: map<int, Part>, ks: seq<int>)
    requires Listed(parts, ks)
    ensures PartsText(parts, ks).Some? <==> forall i :: 0 <= i < |ks| ==> parts[ks[i]].text.JStr?
  {
    if |ks| > 0 {
      PartsTextDefined(parts, ks[..|ks| - 1]);
    }
  }

  /** The enumeration of a set of part numbers lists only existing parts. */
  lemma SortedListed(parts: map<int, Part>, e: set<int>)
    requires forall x :: x in e ==> x in parts
    ensures Listed(parts, SortedKeys(e))
  {
  }

  /** `story.get_current_text(up_to)`, stated without the loop: the texts
      of the eligible parts in ascending part order. */
  function CurrentText(s: Story, upTo: Option<int>): Option<string> {
    SortedListed(s.parts, Eligible(s.parts, upTo));
    PartsText(s.parts, SortedKeys(Eligible(s.parts, upTo)))
  }

  /** A text that failed stays failed whatever follows. */
  lemma {:induction false} PartsTextFailed(parts: map<int, Part>, ks: seq<int>, more: seq<int>)
    requires Listed(parts, ks) && Listed(parts, more)
    requires PartsText(parts, ks).None?
    ensures Listed(parts, ks + more)
    ensures PartsText(parts, ks + more).None?
  {
    var all := ks + more;
    assert forall i :: 0 <= i < |ks| ==> all[i] == ks[i];
    assert forall i :: 0 <= i < |more| ==> all[|ks| + i] == more[i];
    PartsTextDefined(parts, ks);
    PartsTextDefined(parts, all);
  }

  /** The texts of a prefix of part numbers are a prefix of the texts. */
  lemma {:induction false} PartsTextPrefix(parts: map<int, Part>, ks: seq<int>, n: nat)
    requires Listed(parts, ks)
    requires n <= |ks|
    requires PartsText(parts, ks).Some?
    ensures Listed(parts, ks[..n])
    ensures PartsText(parts, ks[..n]).Some?
    ensures PartsText(parts, ks[..n]).value <= PartsText(parts, ks).value
    decreases |ks|
  {
    if n < |ks| {
      var front := ks[..|ks| - 1];
      assert front[..n] == ks[..n];
      PartsTextPrefix(parts, front, n);
    } else {
      assert ks[..n] == ks;
    }
  }

  /** One more part number: its text is appended, or the text fails. */
  lemma PartsTextStep(parts: map<int, Part>, ks: seq<int>, i: nat)
    requires Listed(parts, ks)
    requires i < |ks|
    ensures Listed(parts, ks[..i]) && Listed(parts, ks[..i + 1])
    ensures PartsText(parts, ks[..i + 1])
            == if PartsText(parts, ks[..i]).Some? && parts[ks[i]].text.JStr?
               then Some(PartsText(parts, ks[..i]).value + parts[ks[i]].text.s + "\n\n")
               else None
  {
    assert ks[..i + 1][..i] == ks[..i];
  }

  /** `get_current_text(up_to)` as the program runs it: walk the part numbers
      in ascending order and stop at the first one past `up_to`. */
  method GetCurrentText(s: Story, upTo: Option<int>) returns (r: Option<string>)
    ensures r == CurrentText(s, upTo)
  {
    var partNumbers := SortedKeys(s.parts.Keys);
    SortedListed(s.parts, s.parts.Keys);
    var fullText := "";
    var i := 0;
    while i < |partNumbers|
      invariant 0 <= i <= |partNumbers|
      invariant forall j :: 0 <= j < i ==> Included(partNumbers[j], upTo)
      invariant Listed(s.parts, partNumbers[..i])
      invariant PartsText(s.parts, partNumbers[..i]) == Some(fullText)
    {
      var n := partNumbers[i];
      if upTo.Some? && n > upTo.value {
        break;
      }
      PartsTextStep(s.parts, partNumbers, i);
      var text := s.parts[n].text;
      if !text.JStr? {
        FailedCurrent(s, upTo, i);
        return None;
      }
      fullText := fullText + text.s + "\n\n";
      i := i + 1;
    }
    CurrentCut(s, upTo, i);
    r := Some(fullText);
  }

  /** `ks` lists the elements of `s` in ascending order. */
  ghost predicate Enumerates(ks: seq<int>, s: set<int>) {
    StrictlyIncreasing(ks) && forall x :: x in ks <==> x in s
  }

  /** Numbers past the first excluded one are excluded too. */
  lemma ExcludedAfter(pn: seq<int>, upTo: Option<int>, i: nat)
    requires StrictlyIncreasing(pn)
    requires i < |pn| && !Included(pn[i], upTo)
    ensures forall j :: i <= j < |pn| ==> !Included(pn[j], upTo)
  {
  }

  /** Walking stops exactly after the eligible numbers. */
  lemma EligibleIsCut(parts: map<int, Part>, upTo: Option<int>, pn: seq<int>, el: seq<int>, i: nat)
    requires Enumerates(pn, parts.Keys) && Enumerates(el, Eligible(parts, upTo))
    requires i <= |pn|
    requires forall j :: 0 <= j < i ==> Included(pn[j], upTo)
    requires i < |pn| ==> !Included(pn[i], upTo)
    ensures el == pn[..i]
  {
    var cut := pn[..i];
    if i < |pn| {
      ExcludedAfter(pn, upTo, i);
    }
    forall x | x in cut ensures x in el {
      var j :| 0 <= j < i && cut[j] == x;
      assert pn[j] == x && x in pn;
    }
    forall x | x in el ensures x in cut {
      assert x in pn;
      var j :| 0 <= j < |pn| && pn[j] == x;
      assert cut[j] == x;
    }
    SortedUnique(cut, el);
  }

  /** The walk over all part numbers that stops at `i` covers exactly the
      eligible parts. */
  lemma CurrentCut(s: Story, upTo: Option<int>, i: nat)
    requires i <= |SortedKeys(s.parts.Keys)|
    requires forall j :: 0 <= j < i ==> Included(SortedKeys(s.parts.Keys)[j], upTo)
    requires i < |SortedKeys(s.parts.Keys)| ==> !Included(SortedKeys(s.parts.Keys)[i], upTo)
    ensures SortedKeys(Eligible(s.parts, upTo)) == SortedKeys(s.parts.Keys)[..i]
  {
    SortedKeysSorted(s.parts.Keys);
    SortedKeysSorted(Eligible(s.parts, upTo));
    SortedKeysMembers(s.parts.Keys);
    SortedKeysMembers(Eligible(s.parts, upTo));
    EligibleIsCut(s.parts, upTo, SortedKeys(s.parts.Keys), SortedKeys(Eligible(s.parts, upTo)), i);
  }

  /** A part whose text is not a string makes the whole text fail. */
  lemma FailedText(parts: map<int, Part>, upTo: Option<int>, pn: seq<int>, el: seq<int>, i: nat)
    requires Enumerates(pn, parts.Keys) && Enumerates(el, Eligible(parts, upTo))
    requires el <= pn
    requires Listed(parts, pn)
    requires i < |pn|
    requires Included(pn[i], upTo)
    requires PartsText(parts, pn[..i + 1]).None?
    ensures PartsText(parts, el).None?
  {
    assert pn[i] in el;
    EligibleCount(pn, el, i);
    assert el == pn[..i + 1] + el[i + 1..];
    PartsTextFailed(parts, pn[..i + 1], el[i + 1..]);
  }

  /** The walk that meets a non-string text at position `i` agrees with the
      declarative text, which fails too. */
  lemma FailedCurrent(s: Story, upTo: Option<int>, i: nat)
    requires i < |SortedKeys(s.parts.Keys)|
    requires Included(SortedKeys(s.parts.Keys)[i], upTo)
    requires Listed(s.parts, SortedKeys(s.parts.Keys))
    requires PartsText(s.parts, SortedKeys(s.parts.Keys)[..i + 1]).None?
    ensures CurrentText(s, upTo).None?
  {
    SortedKeysSorted(s.parts.Keys);
    SortedKeysSorted(Eligible(s.parts, upTo));
    SortedKeysMembers(s.parts.Keys);
    SortedKeysMembers(Eligible(s.parts, upTo));
    SortedEligibleIsPrefix(s.parts, upTo);
    FailedText(s.parts, upTo, SortedKeys(s.parts.Keys), SortedKeys(Eligible(s.parts, upTo)), i);
  }

  /** The eligible part numbers in ascending order are a prefix of all part
      numbers in ascending order. */
  lemma SortedEligibleIsPrefix(parts: map<int, Part>, upTo: Option<int>)
    ensures SortedKeys(Eligible(parts, upTo)) <= SortedKeys(parts.Keys)
  {
    if upTo.None? {
      assert Eligible(parts, upTo) == parts.Keys;
    } else {
      assert Eligible(parts, upTo) == set x | x in parts.Keys && x <= upTo.value;
      SortedKeysPrefix(parts.Keys, upTo.value);
    }
  }

  lemma EligibleCount(partNumbers: seq<int>, eligible: seq<int>, i: nat)
    requires StrictlyIncreasing(partNumbers) && StrictlyIncreasing(eligible)
    requires eligible <= partNumbers
    requires i < |partNumbers| && partNumbers[i] in eligible
    ensures i < |eligible|
  {
  }

  /** A story without parts has the empty text. */
  lemma CurrentTextEmpty(s: Story, upTo: Option<int>)
    requires s.parts == map[]
    ensures CurrentText(s, upTo) == Some("")
  {
  }

  /** The text up to part `k` is a prefix of the whole text. */
  lemma CurrentTextPrefix(s: Story, k: int)
    requires CurrentText(s, None).Some?
    ensures CurrentText(s, Some(k)).Some?
    ensures CurrentText(s, Some(k)).value <= CurrentText(s, None).value
  {
    var all := SortedKeys(Eligible(s.parts, None));
    var upto := SortedKeys(Eligible(s.parts, Some(k)));
    assert Eligible(s.parts, None) == s.parts.Keys;
    SortedListed(s.parts, s.parts.Keys);
    SortedEligibleIsPrefix(s.parts, Some(k));
    assert upto == all[..|upto|];
    PartsTextPrefix(s.parts, all, |upto|);
  }

  /** Adding a part numbered above every existing one appends its text. */
  lemma CurrentTextAppend(s: Story, n: int, text: string, choice1: string, choice2: string,
                          isFinal: bool, choiceMade: string)
    requires forall m :: m in s.parts ==> m < n
    requires CurrentText(s, None).Some?
    ensures CurrentText(AddPart(s, n, text, choice1, choice2, isFinal, choiceMade).0, None)
            == Some(CurrentText(s, None).value + text + "\n\n")
  {
    var t := AddPart(s, n, text, choice1, choice2, isFinal, choiceMade).0;
    WholeText(s);
    WholeText(t);
    assert t.parts.Keys == s.parts.Keys + {n};
    SortedKeysAddGreatest(s.parts.Keys, n);
    SortedListed(s.parts, s.parts.Keys);
    AppendText(s.parts, t.parts, SortedKeys(s.parts.Keys), n);
  }

  /** Without a bound, the text covers every part in ascending order. */
  lemma WholeText(s: Story)
    ensures Listed(s.parts, SortedKeys(s.parts.Keys))
    ensures CurrentText(s, None) == PartsText(s.parts, SortedKeys(s.parts.Keys))
  {
    assert Eligible(s.parts, None) == s.parts.Keys;
    SortedListed(s.parts, s.parts.Keys);
  }

  /** The texts of `ks + [n]` over the parts with `n` added. */
  lemma AppendText(a: map<int, Part>, b: map<int, Part>, ks: seq<int>, n: int)
    requires Listed(a, ks) && PartsText(a, ks).Some?
    requires n in b && b[n].text.JStr?
    requires forall i :: 0 <= i < |ks| ==> ks[i] in b && b[ks[i]] == a[ks[i]]
    ensures Listed(b, ks + [n])
    ensures PartsText(b, ks + [n]) == Some(PartsText(a, ks).value + b[n].text.s + "\n\n")
  {
    var all := ks + [n];
    assert all[..|all| - 1] == ks;
    PartsTextSameParts(a, b, ks);
  }

  /** Texts only depend on the parts they list. */
  lemma {:induction false} PartsTextSameParts(a: map<int, Part>, b: map<int, Part>, ks: seq<int>)
    requires forall i :: 0 <= i < |ks| ==> ks[i] in a && ks[i] in b && a[ks[i]] == b[ks[i]]
    ensures Listed(a, ks) && Listed(b, ks)
    ensures PartsText(a, ks) == PartsText(b, ks)
  {
    if |ks| > 0 {
      PartsTextSameParts(a, b, ks[..|ks| - 1]);
    }
  }

  /** `story.get_latest_part()`: `None` (the empty dict) for a story without
      parts, otherwise the largest part number and its part. */
  function LatestPart(s: Story): (r: Option<(int, Part)>)
    ensures r.None? <==> s.parts == map[]
    ensures r.Some? ==> r.value.0 in s.parts && r.value.1 == s.parts[r.value.0]
    ensures r.Some? ==> forall m :: m in s.parts ==> m <= r.value.0
  {
    if s.parts.Keys == {} then None
    else
      var n := Greatest(s.parts.Keys);
      Some((n, s.parts[n]))
  }

  /** The part just added above all others is the latest one. */
  lemma LatestAfterAdd(s: Story, n: int, text: string, choice1: string, choice2: string,
                       isFinal: bool, choiceMade: string)
    requires forall m :: m in s.parts ==> m < n
    ensures LatestPart(AddPart(s, n, text, choice1, choice2, isFinal, choiceMade).0)
            == Some((n, MakePart(text, choice1, choice2, isFinal, choiceMade)))
  {
  }

  // ---------------------------------------------------------------------
  // to_dict / from_dict
  // ---------------------------------------------------------------------

  /** A part as the dictionary it is stored as. */
  function EncodePart(p: Part): JValue {
    JObj([("text", p.text), ("choice_1", p.choice1), ("choice_2", p.choice2), ("is_final", p.isFinal)]
         + (if p.choiceMade.Some? then [("choice_made", p.choiceMade.value)] else []))
  }

  /** Reads a part dictionary back; `None` for anything else. */
  function DecodePart(v: JValue): Option<Part> {
    if v.JObj? && HasKey(v.members, "text") && HasKey(v.members, "choice_1")
       && HasKey(v.members, "choice_2") && HasKey(v.members, "is_final") then
      Some(Part(Get(v.members, "text").value, Get(v.members, "choice_1").value,
                Get(v.members, "choice_2").value, Get(v.members, "is_final").value,
                Get(v.members, "choice_made")))
    else None
  }

  /** `d.get(k)` on a dictionary whose first entry has key `k`, and on one
      whose first entry has another key. */
  lemma GetHead<V>(k: string, v: V, rest: Dict<string, V>)
    ensures Get([(k, v)] + rest, k) == Some(v)
  {
  }

  lemma GetSkip<V>(k: string, v: V, rest: Dict<string, V>, key: string)
    requires key != k
    ensures Get([(k, v)] + rest, key) == Get(rest, key)
  {
  }

  lemma PartRoundTrip(p: Part)
    ensures DecodePart(EncodePart(p)) == Some(p)
  {
    var tail: Dict<string, JValue> := if p.choiceMade.Some? then [("choice_made", p.choiceMade.value)] else [];
    var m := EncodePart(p).members;
    var m1 := [("choice_1", p.choice1), ("choice_2", p.choice2), ("is_final", p.isFinal)] + tail;
    var m2 := [("choice_2", p.choice2), ("is_final", p.isFinal)] + tail;
    var m3 := [("is_final", p.isFinal)] + tail;
    assert m == [("text", p.text)] + m1;
    assert m1 == [("choice_1", p.choice1)] + m2;
    assert m2 == [("choice_2", p.choice2)] + m3;
    GetHead("text", p.text, m1);
    GetSkip("text", p.text, m1, "choice_1");
    GetHead("choice_1", p.choice1, m2);
    GetSkip("text", p.text, m1, "choice_2");
    GetSkip("choice_1", p.choice1, m2, "choice_2");
    GetHead("choice_2", p.choice2, m3);
    GetSkip("text", p.text, m1, "is_final");
    GetSkip("choice_1", p.choice1, m2, "is_final");
    GetSkip("choice_2", p.choice2, m3, "is_final");
    GetHead("is_final", p.isFinal, tail);
    GetSkip("text", p.text, m1, "choice_made");
    GetSkip("choice_1", p.choice1, m2, "choice_made");
    GetSkip("choice_2", p.choice2, m3, "choice_made");
    GetSkip("is_final", p.isFinal, tail, "choice_made");
    assert HasKey(m, "text") && HasKey(m, "choice_1") && HasKey(m, "choice_2") && HasKey(m, "is_final");
    if p.choiceMade.Some? {
      GetHead("choice_made", p.choiceMade.value, []);
    }
  }

  /** The part dictionary entries for the numbers `ks`, in that order. */
  function EncodeParts(parts: map<int, Part>, ks: seq<int>): (r: Dict<string, JValue>)
    requires Listed(parts, ks)
    ensures |r| == |ks|
  {
    if |ks| == 0 then []
    else
      EncodeParts(parts, ks[..|ks| - 1]) + [(PartKey(ks[|ks| - 1]), EncodePart(parts[ks[|ks| - 1]]))]
  }

  /** Reads part dictionary entries back. Each key must be the canonical
      `part_<n>` of the number it parses to; a later entry for the same
      number replaces an earlier one. */
  function DecodeParts(members: Dict<string, JValue>): Option<map<int, Part>> {
    if |members| == 0 then Some(map[])
    else
      var front := DecodeParts(members[..|members| - 1]);
      var (key, value) := members[|members| - 1];
      var n := PartNumber(key);
      var p := DecodePart(value);
      if front.Some? && n.Some? && PartKey(n.value) == key && p.Some? then
        Some(front.value[n.value := p.value])
      else None
  }

  /** Decoding one more encoded part stores it under its number. */
  lemma DecodeSnoc(members: Dict<string, JValue>, n: int, p: Part)
    requires DecodeParts(members).Some?
    ensures DecodeParts(members + [(PartKey(n), EncodePart(p))]) == Some(DecodeParts(members).value[n := p])
  {
    var all := members + [(PartKey(n), EncodePart(p))];
    assert all[..|all| - 1] == members;
    PartKeyRoundTrip(n);
    PartRoundTrip(p);
  }

  /** Encoding the parts `ks` and decoding the entries gives back exactly
      those parts. */
  lemma {:induction false} PartsRoundTrip(parts: map<int, Part>, ks: seq<int>)
    requires Listed(parts, ks)
    ensures DecodeParts(EncodeParts(parts, ks)).Some?
    ensures forall k :: k in DecodeParts(EncodeParts(parts, ks)).value <==> k in ks
    ensures forall k :: k in DecodeParts(EncodeParts(parts, ks)).value
                        ==> k in parts && DecodeParts(EncodeParts(parts, ks)).value[k] == parts[k]
  {
    if |ks| > 0 {
      var front := ks[..|ks| - 1];
      var last := ks[|ks| - 1];
      assert ks == front + [last];
      assert Listed(parts, front);
      PartsRoundTrip(parts, front);
      var e := EncodeParts(parts, front);
      assert EncodeParts(parts, ks) == e + [(PartKey(last), EncodePart(parts[last]))];
      DecodeSnoc(e, last, parts[last]);
      var m := DecodeParts(e).value;
      var back := m[last := parts[last]];
      assert DecodeParts(EncodeParts(parts, ks)) == Some(back);
      forall k ensures k in back <==> k in ks {
        assert k in ks <==> k in front || k == last;
      }
      forall k | k in back ensures k in parts && back[k] == parts[k] {
        if k != last {
          assert k in m;
        }
      }
    }
  }

  /** Encoding every part and decoding the entries gives the parts back. */
  lemma PartsBack(parts: map<int, Part>, ks: seq<int>)
    requires Listed(parts, ks)
    requires forall k :: k in parts ==> k in ks
    ensures DecodeParts(EncodeParts(parts, ks)) == Some(parts)
  {
    PartsRoundTrip(parts, ks);
    SameMap(DecodeParts(EncodeParts(parts, ks)).value, parts, ks);
  }

  /** Two part maps that agree on the keys `ks`, which are all of them,
      are equal. */
  lemma SameMap(back: map<int, Part>, parts: map<int, Part>, ks: seq<int>)
    requires Listed(parts, ks)
    requires forall k :: k in back <==> k in ks
    requires forall k :: k in back ==> k in parts && back[k] == parts[k]
    requires forall k :: k in parts ==> k in ks
    ensures back == parts
  {
    forall k ensures k in back <==> k in parts {
      if k in ks {
        var i :| 0 <= i < |ks| && ks[i] == k;
      }
    }
    forall k | k in back ensures back[k] == parts[k] {
    }
  }

  /** Entry `i` of the encoded parts is part `ks[i]` under its key. */
  lemma {:induction false} EncodePartsAt(parts: map<int, Part>, ks: seq<int>, i: int)
    requires Listed(parts, ks)
    requires 0 <= i < |ks|
    ensures EncodeParts(parts, ks)[i] == (PartKey(ks[i]), EncodePart(parts[ks[i]]))
  {
    var front := ks[..|ks| - 1];
    if i < |ks| - 1 {
      assert Listed(parts, front);
      EncodePartsAt(parts, front, i);
      assert front[i] == ks[i];
    }
  }

  /** Parts encoded in ascending order carry no key twice. */
  lemma SortedPartsUnique(parts: map<int, Part>)
    ensures Listed(parts, SortedKeys(parts.Keys))
    ensures UniqueKeys(EncodeParts(parts, SortedKeys(parts.Keys)))
  {
    var ks := SortedKeys(parts.Keys);
    SortedListed(parts, parts.Keys);
    SortedKeysSorted(parts.Keys);
    var e := EncodeParts(parts, ks);
    forall i, j | 0 <= i < j < |e| ensures e[i].0 != e[j].0 {
      EncodePartsAt(parts, ks, i);
      EncodePartsAt(parts, ks, j);
      PartKeyInjective(ks[i], ks[j]);
    }
  }

  /** Looking up `part_<n>` in the encoded parts gives part `n`. */
  lemma SortedPartsGet(parts: map<int, Part>, n: int)
    requires n in parts
    ensures Listed(parts, SortedKeys(parts.Keys))
    ensures Get(EncodeParts(parts, SortedKeys(parts.Keys)), PartKey(n)) == Some(EncodePart(parts[n]))
  {
    var ks := SortedKeys(parts.Keys);
    SortedPartsUnique(parts);
    SortedKeysMembers(parts.Keys);
    assert n in ks;
    var i :| 0 <= i < |ks| && ks[i] == n;
    var e := EncodeParts(parts, ks);
    EncodePartsAt(parts, ks, i);
    GetEntry(e, i);
  }

  /** `story.to_dict()`: the seven fields in the order the program writes
      them, with the parts under their `part_<n>` keys. Parts are listed in
      ascending part order. */
  function ToDict(s: Story): (r: JValue)
    ensures r.JObj? && |r.members| == 7
    ensures r.members[0] == ("title", s.title)
    ensures r.members[1] == ("language", s.language)
    ensures r.members[2] == ("level", s.level)
    ensures r.members[3].0 == "parts" && r.members[3].1.JObj?
    ensures r.members[4] == ("vocabulary", s.vocabulary)
    ensures r.members[5] == ("translation", s.translation)
    ensures r.members[6] == ("translation_language", s.translationLanguage)
    ensures |r.members[3].1.members| == |s.parts|
    ensures UniqueKeys(r.members[3].1.members)
    ensures forall n :: n in s.parts ==>
      Get(r.members[3].1.members, PartKey(n)) == Some(EncodePart(s.parts[n]))
  {
    SortedPartsUnique(s.parts);
    forall n | n in s.parts
      ensures Get(EncodeParts(s.parts, SortedKeys(s.parts.Keys)), PartKey(n)) == Some(EncodePart(s.parts[n]))
    {
      SortedPartsGet(s.parts, n);
    }
    JObj(StoryEntries(s))
  }

  /** `Story.from_dict(data)`. `None` where Python raises: `data` is not a
      dictionary, or it lacks a title, language, level or parts entry
      (`KeyError`). Python keeps the parts entry as it is; the model keeps
      parts by number, so it also gives `None` for a parts entry it cannot
      read as `part_<n>` keys of part dictionaries, which Python accepts.
      Vocabulary and translation default to `None`. */
  function FromDict(data: JValue): (r: Option<Story>)
    ensures r.Some? <==> data.JObj? && HasKey(data.members, "title") && HasKey(data.members, "language")
                         && HasKey(data.members, "level") && HasKey(data.members, "parts")
                         && Get(data.members, "parts").value.JObj?
                         && DecodeParts(Get(data.members, "parts").value.members).Some?
    ensures r.Some? ==> r.value.title == Get(data.members, "title").value
                        && r.value.language == Get(data.members, "language").value
                        && r.value.level == Get(data.members, "level").value
                        && r.value.parts == DecodeParts(Get(data.members, "parts").value.members).value
    ensures r.Some? ==> r.value.vocabulary == Member(data.members, "vocabulary", JNull)
                        && r.value.translation == Member(data.members, "translation", JNull)
                        && r.value.translationLanguage == Member(data.members, "translation_language", JNull)
  {
    if !data.JObj? then None
    else
      var d := data.members;
      var title := Get(d, "title");
      var language := Get(d, "language");
      var level := Get(d, "level");
      var partsValue := Get(d, "parts");
      if title.None? || language.None? || level.None? || partsValue.None? || !partsValue.value.JObj? then None
      else
        var parts := DecodeParts(partsValue.value.members);
        if parts.None? then None
        else
          Some(Story(title.value, language.value, level.value, parts.value,
                     Member(d, "vocabulary", JNull), Member(d, "translation", JNull),
                     Member(d, "translation_language", JNull)))
  }

  /** The entries of `to_dict()` in order; the keys are distinct. */
  function StoryEntries(s: Story): (d: Dict<string, JValue>)
    ensures |d| == 7
  {
    SortedListed(s.parts, s.parts.Keys);
    [("title", s.title), ("language", s.language), ("level", s.level),
     ("parts", JObj(EncodeParts(s.parts, SortedKeys(s.parts.Keys)))),
     ("vocabulary", s.vocabulary), ("translation", s.translation),
     ("translation_language", s.translationLanguage)]
  }

  /** Each entry of `to_dict()` reads back under its key. */
  lemma StoryEntryRead(s: Story, i: nat)
    requires i < 7
    ensures Get(StoryEntries(s), StoryEntries(s)[i].0) == Some(StoryEntries(s)[i].1)
  {
    var d := StoryEntries(s);
    if i == 0 {
      GetEntry(d, 0);
    } else if i == 1 {
      GetEntry(d, 1);
    } else if i == 2 {
      GetEntry(d, 2);
    } else if i == 3 {
      GetEntry(d, 3);
    } else if i == 4 {
      GetEntry(d, 4);
    } else if i == 5 {
      GetEntry(d, 5);
    } else {
      GetEntry(d, 6);
    }
  }

  /** `from_dict` on a dictionary whose entries are known. */
  lemma FromDictReads(d: Dict<string, JValue>, title: JValue, language: JValue, level: JValue,
                      parts: Dict<string, JValue>, vocabulary: JValue, translation: JValue,
                      translationLanguage: JValue)
    requires Get(d, "title") == Some(title) && Get(d, "language") == Some(language)
    requires Get(d, "level") == Some(level) && Get(d, "parts") == Some(JObj(parts))
    requires Get(d, "vocabulary") == Some(vocabulary) && Get(d, "translation") == Some(translation)
    requires Get(d, "translation_language") == Some(translationLanguage)
    requires DecodeParts(parts).Some?
    ensures FromDict(JObj(d))
            == Some(Story(title, language, level, DecodeParts(parts).value, vocabulary, translation, translationLanguage))
  {
  }

  /** `Story.from_dict(story.to_dict())` gives the story back: title,
      language, level, every part, vocabulary, translation and translation
      language. */
  lemma StoryRoundTrip(s: Story)
    ensures FromDict(ToDict(s)) == Some(s)
  {
    var ks := SortedKeys(s.parts.Keys);
    SortedListed(s.parts, s.parts.Keys);
    var entries := EncodeParts(s.parts, ks);
    var d := StoryEntries(s);
    SortedKeysMembers(s.parts.Keys);
    StoryEntryRead(s, 0);
    StoryEntryRead(s, 1);
    StoryEntryRead(s, 2);
    StoryEntryRead(s, 3);
    StoryEntryRead(s, 4);
    StoryEntryRead(s, 5);
    StoryEntryRead(s, 6);
    PartsBack(s.parts, ks);
    FromDictReads(d, s.title, s.language, s.level, entries, s.vocabulary, s.translation, s.translationLanguage);
  }
}
