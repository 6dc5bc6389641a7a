/** The in-memory session store (MainProg/storage/session_manager.py): the
    generation history, the stories keyed by id, and the other session
    values with their defaults. */
module SessionManager {
  import opened Wrappers
  import opened PyDict
  import opened IntSets
  import opened Json
  import opened StoryGenerator

  /** A stored story as the story endpoint writes it. Parts are keyed by
      the number their `part_<n>` key parses to. */
  datatype StoredStory = StoredStory(title: string, language: string, level: string,
                                     parts: map<int, Part>, lastUpdated: string)

  /** The session data: the history list, the story table, and the other
      entries of `self.data`. */
  datatype Session = Session(history: seq<Dict<string, JValue>>,
                             stories: Dict<string, StoredStory>,
                             values: Dict<string, JValue>)

  /** A value `get` can return: the history list, the story table, or any
      other session value. */
  datatype SessionValue =
    | HistoryValue(items: seq<Dict<string, JValue>>)
    | StoriesValue(table: Dict<string, StoredStory>)
    | Plain(v: JValue)

  /** `SessionManager()`: empty history, no stories, and the initial values. */
  function NewSession(): Session {
    Session([], [],
            [("current_text", JStr("")), ("current_topic", JStr("")), ("current_summary", JStr("")),
             ("current_key_words", JStr("")), ("current_questions", JStr("")),
             ("current_exercises", JStr("")), ("current_translation", JStr("")),
             ("current_story_id", JNull), ("current_story_part", JNum(1)),
             ("current_choices", JArr([]))])
  }

  /** `get(key, default)` */
  function Get(s: Session, key: string, default: SessionValue): (r: SessionValue)
    ensures key == "history" ==> r == HistoryValue(s.history)
    ensures key == "stories" ==> r == StoriesValue(s.stories)
    ensures key != "history" && key != "stories" && HasKey(s.values, key)
            ==> r == Plain(PyDict.Get(s.values, key).value)
    ensures key != "history" && key != "stories" && !HasKey(s.values, key) ==> r == default
  {
    if key == "history" then HistoryValue(s.history)
    else if key == "stories" then StoriesValue(s.stories)
    else match PyDict.Get(s.values, key)
      case Some(v) => Plain(v)
      case None => default
  }

  // ---------------------------------------------------------------------
  // History
  // ---------------------------------------------------------------------

  /** The item `add_to_history` stores: stamped with `now` only when it
      has no "timestamp" entry. */
  function Stamped(item: Dict<string, JValue>, now: string): (r: Dict<string, JValue>)
    ensures HasKey(item, "timestamp") ==> r == item
    ensures !HasKey(item, "timestamp") ==> r == item + [("timestamp", JStr(now))]
  {
    if HasKey(item, "timestamp") then item else Put(item, "timestamp", JStr(now))
  }

  /** `add_to_history(item)`, the clock reading being `now`. */
  function AddToHistory(s: Session, item: Dict<string, JValue>, now: string): (r: Session)
    ensures |r.history| == |s.history| + 1
    ensures r.history[..|s.history|] == s.history
    ensures r.history[|s.history|] == Stamped(item, now)
    ensures r.stories == s.stories && r.values == s.values
  {
    s.(history := s.history + [Stamped(item, now)])
  }

  /** `clear_history()` */
  function ClearHistory(s: Session): (r: Session)
    ensures r.history == []
    ensures r.stories == s.stories && r.values == s.values
  {
    s.(history := [])
  }

  /** Successive additions keep their order: the history grows by the two
      stamped items, first the first. */
  lemma HistoryOrder(s: Session, a: Dict<string, JValue>, b: Dict<string, JValue>, now1: string, now2: string)
    ensures AddToHistory(AddToHistory(s, a, now1), b, now2).history
            == s.history + [Stamped(a, now1), Stamped(b, now2)]
  {
  }

  /** Clearing forgets every earlier addition. */
  lemma ClearForgets(s: Session, item: Dict<string, JValue>, now: string)
    ensures ClearHistory(AddToHistory(s, item, now)) == ClearHistory(s)
  {
  }

  // ---------------------------------------------------------------------
  // Stories
  // ---------------------------------------------------------------------

  /** `save_story(story_id, story_data)` */
  function SaveStory(s: Session, storyId: string, story: StoredStory): (r: Session)
    ensures r.history == s.history && r.values == s.values
  {
    s.(stories := Put(s.stories, storyId, story))
  }

  /** `get_story(story_id)`: `None` for an unknown id. */
  function GetStory(s: Session, storyId: string): (r: Option<StoredStory>)
    ensures r.Some? <==> HasKey(s.stories, storyId)
  {
    PyDict.Get(s.stories, storyId)
  }

  /** After saving, the id reads back the saved story and every other id
      reads back what it read before. */
  lemma SaveThenGet(s: Session, storyId: string, story: StoredStory)
    ensures GetStory(SaveStory(s, storyId, story), storyId) == Some(story)
    ensures forall other :: other != storyId
              ==> GetStory(SaveStory(s, storyId, story), other) == GetStory(s, other)
  {
  }

  /** Saving twice under one id leaves the second story: last write wins. */
  lemma SaveOverwrites(s: Session, storyId: string, first: StoredStory, second: StoredStory)
    ensures SaveStory(SaveStory(s, storyId, first), storyId, second) == SaveStory(s, storyId, second)
  {
    PutPut(s.stories, storyId, first, second);
  }

  /** Saving a new id appends it to the table; saving an existing id keeps
      the table's length and order of ids. */
  lemma SavePlacement(s: Session, storyId: string, story: StoredStory)
    ensures !HasKey(s.stories, storyId) ==> SaveStory(s, storyId, story).stories == s.stories + [(storyId, story)]
    ensures HasKey(s.stories, storyId) ==>
              |SaveStory(s, storyId, story).stories| == |s.stories|
              && forall i :: 0 <= i < |s.stories| ==> SaveStory(s, storyId, story).stories[i].0 == s.stories[i].0
  {
    if HasKey(s.stories, storyId) {
      PutInPlace(s.stories, storyId, story);
    }
  }

  /** `delete_story(story_id)`: the new session and whether a story was
      deleted. */
  function DeleteStory(s: Session, storyId: string): (r: (Session, bool))
    ensures r.1 <==> HasKey(s.stories, storyId)
    ensures !r.1 ==> r.0 == s
    ensures GetStory(r.0, storyId).None?
    ensures forall other :: other != storyId ==> GetStory(r.0, other) == GetStory(s, other)
    ensures r.0.history == s.history && r.0.values == s.values
  {
    if HasKey(s.stories, storyId) then (s.(stories := Remove(s.stories, storyId)), true)
    else (s, false)
  }

  /** Deleting a saved story succeeds and restores the earlier table when
      the id was new. */
  lemma SaveThenDelete(s: Session, storyId: string, story: StoredStory)
    requires !HasKey(s.stories, storyId)
    ensures DeleteStory(SaveStory(s, storyId, story), storyId) == (s, true)
  {
    var t := SaveStory(s, storyId, story);
    assert t.stories == s.stories + [(storyId, story)];
    RemoveAppended(s.stories, storyId, story);
  }

  /** Removing a key just appended to a dictionary without it gives the
      dictionary back. */
  lemma {:induction false} RemoveAppended<V>(d: Dict<string, V>, k: string, v: V)
    requires !HasKey(d, k)
    ensures Remove(d + [(k, v)], k) == d
  {
    if |d| > 0 {
      assert (d + [(k, v)])[1..] == d[1..] + [(k, v)];
      forall i | 0 <= i < |d[1..]| ensures d[1..][i].0 != k {
        assert d[1..][i] == d[i + 1];
      }
      RemoveAppended(d[1..], k, v);
      assert d == [d[0]] + d[1..];
    }
  }

  // ---------------------------------------------------------------------
  // Listing
  // ---------------------------------------------------------------------

  /** One entry of `list_stories()`. `isComplete` is the raw value the
      `and` expression yields. */
  datatype StorySummary = StorySummary(id: string, title: string, language: string, level: string,
                                       partsCount: nat, isComplete: JValue, lastUpdated: string)

  /** `latest_part`: the largest part number, or 0 for a story without parts. */
  function LatestNumber(parts: map<int, Part>): (n: int)
    ensures parts == map[] ==> n == 0
    ensures parts != map[] ==> n in parts && forall k :: k in parts ==> k <= n
  {
    if parts.Keys == {} then 0 else Greatest(parts.Keys)
  }

  /** `is_complete`: `False` unless the largest part number is positive,
      otherwise that part's "is_final" value. */
  function IsComplete(parts: map<int, Part>): (r: JValue)
    ensures LatestNumber(parts) <= 0 ==> r == JBool(false)
    ensures LatestNumber(parts) > 0 ==> r == parts[LatestNumber(parts)].isFinal
  {
    var latest := LatestNumber(parts);
    if latest > 0 then parts[latest].isFinal else JBool(false)
  }

  /** The summary of one stored story. */
  function Summarize(storyId: string, story: StoredStory): (r: StorySummary)
    ensures r.id == storyId && r.title == storyId
    ensures r.language == story.language && r.level == story.level
    ensures r.partsCount == |story.parts|
    ensures r.isComplete == IsComplete(story.parts)
    ensures r.lastUpdated == story.lastUpdated
  {
    StorySummary(storyId, storyId, story.language, story.level, |story.parts|,
                 IsComplete(story.parts), story.lastUpdated)
  }

  /** `list_stories()`: one summary per stored story, in table order. */
  function ListStories(s: Session): (r: seq<StorySummary>)
    ensures |r| == |s.stories|
    ensures forall i :: 0 <= i < |r| ==> r[i] == Summarize(s.stories[i].0, s.stories[i].1)
  {
    seq(|s.stories|, i requires 0 <= i < |s.stories| => Summarize(s.stories[i].0, s.stories[i].1))
  }

  /** A story counts as complete exactly when it has a part numbered above
      0 and above every other part, and that part is marked final. */
  lemma CompleteIff(parts: map<int, Part>)
    ensures Truthy(IsComplete(parts))
            <==> exists m :: m in parts && m > 0 && (forall k :: k in parts ==> k <= m) && Truthy(parts[m].isFinal)
  {
  }

  /** A final part that is not the latest one does not complete the story. */
  lemma EarlierFinalIgnored(early: Part, late: Part)
    requires early.isFinal == JBool(true) && late.isFinal == JBool(false)
    ensures IsComplete(map[1 := early, 2 := late]) == JBool(false)
  {
    var parts := map[1 := early, 2 := late];
    assert LatestNumber(parts) == 2 by {
      assert 2 in parts;
    }
  }

  /** Parts are ranked by the number their key parses to, not by key text:
      part 10 follows part 9 although "part_10" sorts before "part_9" as a
      string. */
  lemma TenOutranksNine(nine: Part, ten: Part)
    requires nine.isFinal == JBool(false) && ten.isFinal == JBool(true)
    ensures IsComplete(map[9 := nine, 10 := ten]) == JBool(true)
  {
    var parts := map[9 := nine, 10 := ten];
    assert LatestNumber(parts) == 10 by {
      assert 10 in parts;
    }
  }

  /** A story without parts is listed as incomplete with no parts. */
  lemma EmptyStoryIncomplete(storyId: string, story: StoredStory)
    requires story.parts == map[]
    ensures Summarize(storyId, story).partsCount == 0
    ensures Summarize(storyId, story).isComplete == JBool(false)
  {
  }
}
