/** The generated-text record and its dictionary form
    (MainProg/models/text.py): `GeneratedText.to_dict`,
    `_convert_to_dict_list` and `GeneratedText.from_dict`. */
module TextModel {
  import opened Wrappers
  import opened PyDict
  import opened PyStr
  import opened Json

  // ---------------------------------------------------------------------
  // Items of the list fields
  // ---------------------------------------------------------------------

  /** The four record classes a list field can hold after `from_dict`. */
  datatype Kind = KeyWordKind | QuestionKind | ExerciseKind | TranslationKind

  /** The field names of a record class, in declaration order. */
  function Fields(kind: Kind): seq<string> {
    match kind
    case KeyWordKind => ["word", "definition", "example"]
    case QuestionKind => ["question", "answer"]
    case ExerciseKind => ["instructions", "content", "solution"]
    case TranslationKind => ["original", "translation"]
  }

  /** One element of a list field: a record built by `from_dict`, or a
      value taken over from a decoded reply. Record fields hold whatever
      the dictionary held; dataclasses do not check types. */
  datatype Item =
    | KeyWordItem(word: JValue, definition: JValue, example: JValue)
    | QuestionItem(question: JValue, answer: JValue)
    | ExerciseItem(instructions: JValue, content: JValue, solution: JValue)
    | TranslationItem(original: JValue, translation: JValue)
    | Plain(v: JValue)
  {
    /** The record class of a record item. */
    predicate OfKind(kind: Kind) {
      match kind
      case KeyWordKind => KeyWordItem?
      case QuestionKind => QuestionItem?
      case ExerciseKind => ExerciseItem?
      case TranslationKind => TranslationItem?
    }
  }

  /** `vars(record)`: the record's fields by name, in declaration order. */
  function Vars(item: Item): (d: Dict<string, JValue>)
    requires !item.Plain?
  {
    match item
    case KeyWordItem(w, d, e) => [("word", w), ("definition", d), ("example", e)]
    case QuestionItem(q, a) => [("question", q), ("answer", a)]
    case ExerciseItem(i, c, s) => [("instructions", i), ("content", c), ("solution", s)]
    case TranslationItem(o, t) => [("original", o), ("translation", t)]
  }

  /** `str(v)` for the scalar values `dict(v)` rejects. */
  function ScalarString(v: JValue): string
    requires v.JNull? || v.JBool? || v.JNum?
  {
    match v
    case JNull => "None"
    case JBool(b) => if b then "True" else "False"
    case JNum(n) => IntToString(n)
  }

  /** How `dict(xs)` turns a list into a dictionary, or `{"value": str(xs)}`
      when it cannot; the pairing and `str` of nested lists are outside
      the model. */
  type ListCoercion = seq<JValue> -> Dict<string, JValue>

  /** One step of `_convert_to_dict_list`: a record becomes its fields, a
      dictionary stays as it is, and anything else goes through `dict(...)`,
      which accepts only the empty string and (by `coerce`) lists, and
      otherwise falls back to `{"value": str(item)}`. */
  function ConvertItem(item: Item, coerce: ListCoercion): (d: Dict<string, JValue>)
    ensures !item.Plain? ==> d == Vars(item)
    ensures item.Plain? && item.v.JObj? ==> d == item.v.members
    ensures item == Plain(JStr("")) ==> d == []
    ensures item.Plain? && item.v.JStr? && item.v.s != "" ==> d == [("value", item.v)]
    ensures item.Plain? && (item.v.JNull? || item.v.JBool? || item.v.JNum?)
            ==> d == [("value", JStr(ScalarString(item.v)))]
    ensures item.Plain? && item.v.JArr? ==> d == coerce(item.v.items)
  {
    match item
    case Plain(v) =>
      (match v
       case JObj(m) => m
       case JStr(s) => if s == "" then [] else [("value", v)]
       case JArr(xs) => coerce(xs)
       case _ => [("value", JStr(ScalarString(v)))])
    case _ => Vars(item)
  }

  /** `_convert_to_dict_list(items)`: one dictionary per item, in order. */
  function ConvertList(items: seq<Item>, coerce: ListCoercion): (r: seq<JValue>)
    ensures |r| == |items|
    ensures forall i :: 0 <= i < |items| ==> r[i] == JObj(ConvertItem(items[i], coerce))
  {
    seq(|items|, i requires 0 <= i < |items| => JObj(ConvertItem(items[i], coerce)))
  }

  // ---------------------------------------------------------------------
  // The record
  // ---------------------------------------------------------------------

  /** The value of a list field: a Python list (of records, or of decoded
      JSON values), or another value a generator returned, such as a JSON
      object or the raw reply text. */
  datatype Listing = Items(items: seq<Item>) | Other(v: JValue) {
    /** `bool(field)` */
    predicate Truthy() {
      match this
      case Items(xs) => |xs| > 0
      case Other(v) => Json.Truthy(v)
    }
  }

  /** How the app stores a decoded reply in a list field: a JSON list
      becomes a Python list, anything else is kept as it is. */
  function ListingOf(v: JValue): (l: Listing)
    ensures v.JArr? ==> l.Items? && |l.items| == |v.items|
                        && forall i :: 0 <= i < |v.items| ==> l.items[i] == Plain(v.items[i])
    ensures !v.JArr? ==> l == Other(v)
    ensures l.Truthy() <==> Truthy(v)
  {
    if v.JArr? then Items(seq(|v.items|, i requires 0 <= i < |v.items| => Plain(v.items[i])))
    else Other(v)
  }

  /** `GeneratedText`. Scalar fields hold whatever value they were given. */
  datatype GeneratedText = GeneratedText(
    topic: JValue, text: JValue, language: JValue, level: JValue, textType: JValue,
    summary: JValue, keyWords: Listing, questions: Listing, exercises: Listing,
    translation: Listing, translationLanguage: JValue, timestamp: JValue, wordCount: JValue)

  /** `GeneratedText(topic=..., text=..., language=..., level=..., text_type=...,
      word_count=...)` created at time `now`: no summary, empty lists, no
      translation language. */
  function NewText(topic: JValue, text: JValue, language: JValue, level: JValue, textType: JValue,
                   wordCount: JValue, now: string): GeneratedText {
    GeneratedText(topic, text, language, level, textType, JNull, Items([]), Items([]), Items([]),
                  Items([]), JNull, JStr(now), wordCount)
  }

  // ---------------------------------------------------------------------
  // to_dict
  // ---------------------------------------------------------------------

  /** `_convert_to_dict_list(field) if field else None`. Iterating a value
      that is not iterable raises `TypeError`. */
  function ListingToDict(l: Listing, coerce: ListCoercion): (r: Result<JValue>)
    ensures !l.Truthy() ==> r == Ok(JNull)
    ensures l.Truthy() && l.Items? ==> r == Ok(JArr(ConvertList(l.items, coerce)))
    ensures l.Truthy() && l.Other? && Iterate(l.v).None?
            ==> r == Raised("'" + TypeName(l.v) + "' object is not iterable")
    ensures l.Truthy() && l.Other? && Iterate(l.v).Some?
            ==> r == Ok(JArr(ConvertList(ListingOf(JArr(Iterate(l.v).value)).items, coerce)))
  {
    if !l.Truthy() then Ok(JNull)
    else match l
      case Items(xs) => Ok(JArr(ConvertList(xs, coerce)))
      case Other(v) =>
        match Iterate(v)
        case None => Raised("'" + TypeName(v) + "' object is not iterable")
        case Some(elems) => Ok(JArr(ConvertList(ListingOf(JArr(elems)).items, coerce)))
  }

  /** The entries of `to_dict()` once the four list fields are converted. */
  function TextEntries(g: GeneratedText, keyWords: JValue, questions: JValue, exercises: JValue,
                       translation: JValue): (d: Dict<string, JValue>)
    ensures |d| == 13
  {
    [("topic", g.topic), ("text", g.text), ("language", g.language), ("level", g.level),
     ("text_type", g.textType), ("summary", g.summary), ("key_words", keyWords),
     ("questions", questions), ("exercises", exercises), ("translation", translation),
     ("translation_language", g.translationLanguage), ("timestamp", g.timestamp),
     ("word_count", g.wordCount)]
  }

  /** `g.to_dict()`: the first list field whose conversion raises decides
      the error, in the order key words, questions, exercises, translation. */
  function ToDict(g: GeneratedText, coerce: ListCoercion): (r: Result<Dict<string, JValue>>)
    ensures r.Ok? <==> ListingToDict(g.keyWords, coerce).Ok? && ListingToDict(g.questions, coerce).Ok?
                       && ListingToDict(g.exercises, coerce).Ok? && ListingToDict(g.translation, coerce).Ok?
    ensures r.Ok? ==> r.value == TextEntries(g, ListingToDict(g.keyWords, coerce).value,
                                             ListingToDict(g.questions, coerce).value,
                                             ListingToDict(g.exercises, coerce).value,
                                             ListingToDict(g.translation, coerce).value)
  {
    var kw := ListingToDict(g.keyWords, coerce);
    var qs := ListingToDict(g.questions, coerce);
    var ex := ListingToDict(g.exercises, coerce);
    var tr := ListingToDict(g.translation, coerce);
    if kw.Raised? then Raised(kw.message)
    else if qs.Raised? then Raised(qs.message)
    else if ex.Raised? then Raised(ex.message)
    else if tr.Raised? then Raised(tr.message)
    else Ok(TextEntries(g, kw.value, qs.value, ex.value, tr.value))
  }

  // ---------------------------------------------------------------------
  // from_dict
  // ---------------------------------------------------------------------

  /** `Record(**m)` accepts exactly the record's field names. */
  predicate ExactKeys(m: Dict<string, JValue>, names: seq<string>) {
    (forall i :: 0 <= i < |names| ==> HasKey(m, names[i]))
    && (forall j :: 0 <= j < |m| ==> m[j].0 in names)
  }

  /** Each field of the record holds the value `m` stores under the
      field's name, whatever the order of `m`'s entries. */
  predicate ByName(item: Item, m: Dict<string, JValue>)
    requires !item.Plain?
  {
    forall i :: 0 <= i < |Vars(item)| ==> Get(m, Vars(item)[i].0) == Some(Vars(item)[i].1)
  }

  /** `Record(**v)`: the record of class `kind` built from a dictionary
      with exactly its field names; `None` where Python raises `TypeError`
      (not a mapping, a missing field, an unexpected field). */
  function MakeRecord(kind: Kind, v: JValue): (r: Option<Item>)
    ensures r.Some? <==> v.JObj? && ExactKeys(v.members, Fields(kind))
    ensures r.Some? ==> r.value.OfKind(kind)
    ensures r.Some? ==> ByName(r.value, v.members)
  {
    if v.JObj? && ExactKeys(v.members, Fields(kind)) then
      BuildByName(kind, v.members);
      Some(Build(kind, v.members))
    else None
  }

  /** The record of class `kind` whose fields are read from `m` by name. */
  function Build(kind: Kind, m: Dict<string, JValue>): Item
    requires forall i :: 0 <= i < |Fields(kind)| ==> HasKey(m, Fields(kind)[i])
  {
    var f := Fields(kind);
    assert forall i :: 0 <= i < |f| ==> Get(m, f[i]).Some?;
    match kind
    case KeyWordKind => KeyWordItem(Get(m, f[0]).value, Get(m, f[1]).value, Get(m, f[2]).value)
    case QuestionKind => QuestionItem(Get(m, f[0]).value, Get(m, f[1]).value)
    case ExerciseKind => ExerciseItem(Get(m, f[0]).value, Get(m, f[1]).value, Get(m, f[2]).value)
    case TranslationKind => TranslationItem(Get(m, f[0]).value, Get(m, f[1]).value)
  }

  /** A built record is of its class and holds each field's value by name. */
  lemma BuildByName(kind: Kind, m: Dict<string, JValue>)
    requires forall i :: 0 <= i < |Fields(kind)| ==> HasKey(m, Fields(kind)[i])
    ensures Build(kind, m).OfKind(kind)
    ensures ByName(Build(kind, m), m)
  {
    var f := Fields(kind);
    var item := Build(kind, m);
    assert forall i :: 0 <= i < |f| ==> Get(m, f[i]).Some?;
    assert |Vars(item)| == |f| && forall i :: 0 <= i < |f| ==> Vars(item)[i] == (f[i], Get(m, f[i]).value);
  }

  /** `[Record(**x) for x in elems]`: every element must make a record;
      the first that does not raises `TypeError`. */
  function MakeRecords(kind: Kind, elems: seq<JValue>): (r: Result<seq<Item>>)
    ensures r.Ok? <==> forall i :: 0 <= i < |elems| ==> MakeRecord(kind, elems[i]).Some?
    ensures r.Ok? ==> |r.value| == |elems|
                      && forall i :: 0 <= i < |elems| ==> Some(r.value[i]) == MakeRecord(kind, elems[i])
  {
    if forall i :: 0 <= i < |elems| ==> MakeRecord(kind, elems[i]).Some? then
      Ok(seq(|elems|, i requires 0 <= i < |elems| => MakeRecord(kind, elems[i]).value))
    else Raised("TypeError")
  }

  /** The list field `key` of `from_dict`: a truthy list is converted
      element by element; when `wrapped`, a truthy dictionary holding `key`
      has that entry converted instead; anything else leaves the field
      empty. */
  function ReadListing(data: Dict<string, JValue>, key: string, kind: Kind, wrapped: bool): (r: Result<Listing>)
    ensures var v := Member(data, key, JNull);
            (!Truthy(v) || (!v.JArr? && !(wrapped && v.JObj? && HasKey(v.members, key)))) ==> r == Ok(Items([]))
    ensures var v := Member(data, key, JNull);
            Truthy(v) && v.JArr? ==> r.Ok? == MakeRecords(kind, v.items).Ok?
                                     && (r.Ok? ==> r.value == Items(MakeRecords(kind, v.items).value))
    ensures var v := Member(data, key, JNull);
            Truthy(v) && wrapped && v.JObj? && HasKey(v.members, key)
            ==> var inner := Get(v.members, key).value;
                (Iterate(inner).None? ==> r == Raised("'" + TypeName(inner) + "' object is not iterable"))
                && (Iterate(inner).Some? ==> r.Ok? == MakeRecords(kind, Iterate(inner).value).Ok?)
                && (Iterate(inner).Some? && r.Ok? ==> r.value == Items(MakeRecords(kind, Iterate(inner).value).value))
  {
    var v := Member(data, key, JNull);
    if !Truthy(v) then Ok(Items([]))
    else if v.JArr? then
      match MakeRecords(kind, v.items)
      case Ok(items) => Ok(Items(items))
      case Raised(e) => Raised(e)
    else if wrapped && v.JObj? && HasKey(v.members, key) then
      var inner := PyDict.Get(v.members, key).value;
      match Iterate(inner)
      case None => Raised("'" + TypeName(inner) + "' object is not iterable")
      case Some(elems) =>
        match MakeRecords(kind, elems)
        case Ok(items) => Ok(Items(items))
        case Raised(e) => Raised(e)
    else Ok(Items([]))
  }

  /** The required entries `from_dict` reads with `data[key]`. */
  const Required: seq<string> := ["topic", "text", "language", "level"]

  /** `GeneratedText.from_dict(data)` at time `now`: `KeyError` for a
      missing topic, text, language or level (reported as Python prints
      the key), defaults for the optional scalars, and the list fields
      read as `ReadListing` describes. */
  function FromDict(data: Dict<string, JValue>, now: string): (r: Result<GeneratedText>)
    ensures (exists i :: 0 <= i < |Required| && !HasKey(data, Required[i])) ==> r.Raised?
    ensures HasKey(data, "topic") && HasKey(data, "text") && HasKey(data, "language") && HasKey(data, "level") ==>
              (r.Ok? <==> ReadListing(data, "key_words", KeyWordKind, false).Ok?
                          && ReadListing(data, "questions", QuestionKind, true).Ok?
                          && ReadListing(data, "exercises", ExerciseKind, true).Ok?
                          && ReadListing(data, "translation", TranslationKind, false).Ok?)
    ensures r.Ok? ==> Get(data, "topic") == Some(r.value.topic) && Get(data, "text") == Some(r.value.text)
                      && Get(data, "language") == Some(r.value.language)
                      && Get(data, "level") == Some(r.value.level)
    ensures r.Ok? ==> ReadListing(data, "key_words", KeyWordKind, false) == Ok(r.value.keyWords)
                      && ReadListing(data, "questions", QuestionKind, true) == Ok(r.value.questions)
                      && ReadListing(data, "exercises", ExerciseKind, true) == Ok(r.value.exercises)
                      && ReadListing(data, "translation", TranslationKind, false) == Ok(r.value.translation)
    ensures r.Ok? ==> r.value.textType == Member(data, "text_type", JStr("General"))
                      && r.value.summary == Member(data, "summary", JNull)
                      && r.value.translationLanguage == Member(data, "translation_language", JNull)
                      && r.value.timestamp == Member(data, "timestamp", JStr(now))
                      && r.value.wordCount == Member(data, "word_count", JNum(0))
  {
    if !HasKey(data, "topic") then Raised("'topic'")
    else if !HasKey(data, "text") then Raised("'text'")
    else if !HasKey(data, "language") then Raised("'language'")
    else if !HasKey(data, "level") then Raised("'level'")
    else
      var kw := ReadListing(data, "key_words", KeyWordKind, false);
      var qs := ReadListing(data, "questions", QuestionKind, true);
      var ex := ReadListing(data, "exercises", ExerciseKind, true);
      var tr := ReadListing(data, "translation", TranslationKind, false);
      if kw.Raised? then Raised(kw.message)
      else if qs.Raised? then Raised(qs.message)
      else if ex.Raised? then Raised(ex.message)
      else if tr.Raised? then Raised(tr.message)
      else
        Ok(GeneratedText(PyDict.Get(data, "topic").value, PyDict.Get(data, "text").value,
                         PyDict.Get(data, "language").value, PyDict.Get(data, "level").value,
                         Member(data, "text_type", JStr("General")), Member(data, "summary", JNull),
                         kw.value, qs.value, ex.value, tr.value,
                         Member(data, "translation_language", JNull),
                         Member(data, "timestamp", JStr(now)), Member(data, "word_count", JNum(0))))
  }

  // ---------------------------------------------------------------------
  // Properties
  // ---------------------------------------------------------------------

  /** Converting a list converts its parts in place: the order of the items
      is the order of the dictionaries. */
  lemma ConvertAppend(a: seq<Item>, b: seq<Item>, coerce: ListCoercion)
    ensures ConvertList(a + b, coerce) == ConvertList(a, coerce) + ConvertList(b, coerce)
  {
  }

  /** A list field whose value `for` cannot iterate: a truthy number or
      boolean kept from a reply. */
  predicate Uniterable(l: Listing) {
    l.Other? && Truthy(l.v) && !(l.v.JArr? || l.v.JObj? || l.v.JStr?)
  }

  /** A Python list never makes `to_dict` raise, nor does a dictionary or a
      string; it raises exactly when some list field holds a truthy value
      that is none of these. */
  lemma ToDictRaisesIff(g: GeneratedText, coerce: ListCoercion)
    ensures ToDict(g, coerce).Raised? <==>
              Uniterable(g.keyWords) || Uniterable(g.questions) || Uniterable(g.exercises) || Uniterable(g.translation)
  {
  }

  /** The field names of a record, in order, are its class's field names. */
  lemma VarsKeys(item: Item, kind: Kind)
    requires item.OfKind(kind)
    ensures |Vars(item)| == |Fields(kind)|
    ensures forall i :: 0 <= i < |Fields(kind)| ==> Vars(item)[i].0 == Fields(kind)[i]
  {
  }

  /** `Record(**vars(record))` rebuilds the record. */
  lemma RecordBack(item: Item, kind: Kind)
    requires item.OfKind(kind)
    ensures MakeRecord(kind, JObj(Vars(item))) == Some(item)
  {
    var m := Vars(item);
    var f := Fields(kind);
    VarsKeys(item, kind);
    forall i | 0 <= i < |f| ensures Get(m, f[i]) == Some(m[i].1) {
      GetEntry(m, i);
    }
    assert ExactKeys(m, f) by {
      forall j | 0 <= j < |m| ensures m[j].0 in f {
        assert m[j].0 == f[j];
      }
    }
  }

  /** Converting records to dictionaries and back gives the records. */
  lemma RecordsBack(items: seq<Item>, kind: Kind, coerce: ListCoercion)
    requires forall i :: 0 <= i < |items| ==> items[i].OfKind(kind)
    ensures MakeRecords(kind, ConvertList(items, coerce)) == Ok(items)
  {
    var elems := ConvertList(items, coerce);
    forall i | 0 <= i < |items| ensures MakeRecord(kind, elems[i]) == Some(items[i]) {
      assert elems[i] == JObj(Vars(items[i]));
      RecordBack(items[i], kind);
    }
    var r := MakeRecords(kind, elems);
    assert r.Ok?;
    forall i | 0 <= i < |items| ensures r.value[i] == items[i] {
      assert Some(r.value[i]) == MakeRecord(kind, elems[i]);
    }
    assert r.value == items;
  }

  /** A list field as `from_dict` builds it: a list of records of one class. */
  predicate RecordsOf(l: Listing, kind: Kind) {
    l.Items? && forall i :: 0 <= i < |l.items| ==> l.items[i].OfKind(kind)
  }

  /** The texts `from_dict` produces: every list field holds records of
      its own class. */
  predicate WellFormed(g: GeneratedText) {
    RecordsOf(g.keyWords, KeyWordKind) && RecordsOf(g.questions, QuestionKind)
    && RecordsOf(g.exercises, ExerciseKind) && RecordsOf(g.translation, TranslationKind)
  }

  /** A list field of records is read back from its converted form. */
  lemma ListingBack(data: Dict<string, JValue>, key: string, l: Listing, kind: Kind, wrapped: bool,
                    coerce: ListCoercion)
    requires RecordsOf(l, kind)
    requires Get(data, key) == Some(ListingToDict(l, coerce).value)
    ensures ReadListing(data, key, kind, wrapped) == Ok(l)
  {
    if |l.items| == 0 {
      assert Member(data, key, JNull) == JNull;
    } else {
      RecordListBack(data, key, l.items, kind, wrapped, coerce);
    }
  }

  /** A non-empty list of records is read back from its converted form. */
  lemma RecordListBack(data: Dict<string, JValue>, key: string, items: seq<Item>, kind: Kind, wrapped: bool,
                       coerce: ListCoercion)
    requires |items| > 0 && forall i :: 0 <= i < |items| ==> items[i].OfKind(kind)
    requires Get(data, key) == Some(JArr(ConvertList(items, coerce)))
    ensures ReadListing(data, key, kind, wrapped) == Ok(Items(items))
  {
    assert Member(data, key, JNull) == JArr(ConvertList(items, coerce));
    RecordsBack(items, kind, coerce);
  }

  /** Each entry of `to_dict()` reads back under its key. */
  lemma TextEntryRead(g: GeneratedText, kw: JValue, qs: JValue, ex: JValue, tr: JValue, i: nat)
    requires i < 13
    ensures Get(TextEntries(g, kw, qs, ex, tr), TextEntries(g, kw, qs, ex, tr)[i].0)
            == Some(TextEntries(g, kw, qs, ex, tr)[i].1)
  {
    var d := TextEntries(g, kw, qs, ex, tr);
    if i == 0 {
      GetEntry(d, 0);
    } else if i == 1 {
      GetEntry(d, 1);
    } else if i == 2 {
      GetEntry(d, 2);
    } else if i == 3 {
      GetEntry(d, 3);
    } else if i == 4 {
      GetEntry(d, 4);
    } else if i == 5 {
      GetEntry(d, 5);
    } else if i == 6 {
      GetEntry(d, 6);
    } else if i == 7 {
      GetEntry(d, 7);
    } else if i == 8 {
      GetEntry(d, 8);
    } else if i == 9 {
      GetEntry(d, 9);
    } else if i == 10 {
      GetEntry(d, 10);
    } else if i == 11 {
      GetEntry(d, 11);
    } else {
      GetEntry(d, 12);
    }
  }

  /** `from_dict` on a dictionary whose entries are known. */
  lemma FromDictReads(d: Dict<string, JValue>, now: string, g: GeneratedText)
    requires Get(d, "topic") == Some(g.topic) && Get(d, "text") == Some(g.text)
    requires Get(d, "language") == Some(g.language) && Get(d, "level") == Some(g.level)
    requires Get(d, "text_type") == Some(g.textType) && Get(d, "summary") == Some(g.summary)
    requires Get(d, "translation_language") == Some(g.translationLanguage)
    requires Get(d, "timestamp") == Some(g.timestamp) && Get(d, "word_count") == Some(g.wordCount)
    requires ReadListing(d, "key_words", KeyWordKind, false) == Ok(g.keyWords)
    requires ReadListing(d, "questions", QuestionKind, true) == Ok(g.questions)
    requires ReadListing(d, "exercises", ExerciseKind, true) == Ok(g.exercises)
    requires ReadListing(d, "translation", TranslationKind, false) == Ok(g.translation)
    ensures FromDict(d, now) == Ok(g)
  {
  }

  /** `GeneratedText.from_dict(g.to_dict())` gives `g` back, every field
      included, whenever the list fields hold records of their classes;
      an empty list comes back empty. */
  lemma TextRoundTrip(g: GeneratedText, coerce: ListCoercion, now: string)
    requires WellFormed(g)
    ensures ToDict(g, coerce).Ok?
    ensures FromDict(ToDict(g, coerce).value, now) == Ok(g)
  {
    var kw := ListingToDict(g.keyWords, coerce).value;
    var qs := ListingToDict(g.questions, coerce).value;
    var ex := ListingToDict(g.exercises, coerce).value;
    var tr := ListingToDict(g.translation, coerce).value;
    var d := TextEntries(g, kw, qs, ex, tr);
    TextEntryRead(g, kw, qs, ex, tr, 0);
    TextEntryRead(g, kw, qs, ex, tr, 1);
    TextEntryRead(g, kw, qs, ex, tr, 2);
    TextEntryRead(g, kw, qs, ex, tr, 3);
    TextEntryRead(g, kw, qs, ex, tr, 4);
    TextEntryRead(g, kw, qs, ex, tr, 5);
    TextEntryRead(g, kw, qs, ex, tr, 6);
    TextEntryRead(g, kw, qs, ex, tr, 7);
    TextEntryRead(g, kw, qs, ex, tr, 8);
    TextEntryRead(g, kw, qs, ex, tr, 9);
    TextEntryRead(g, kw, qs, ex, tr, 10);
    TextEntryRead(g, kw, qs, ex, tr, 11);
    TextEntryRead(g, kw, qs, ex, tr, 12);
    ListingBack(d, "key_words", g.keyWords, KeyWordKind, false, coerce);
    ListingBack(d, "questions", g.questions, QuestionKind, true, coerce);
    ListingBack(d, "exercises", g.exercises, ExerciseKind, true, coerce);
    ListingBack(d, "translation", g.translation, TranslationKind, false, coerce);
    FromDictReads(d, now, g);
  }

  /** The list that `to_dict` stores for a list field, read back by
      `from_dict`: the records its elements make, and no records when the
      field was stored as `None`. */
  function StoredRecords(l: Listing, kind: Kind, coerce: ListCoercion): Result<seq<Item>>
    requires ListingToDict(l, coerce).Ok?
  {
    var c := ListingToDict(l, coerce).value;
    if c.JArr? then MakeRecords(kind, c.items) else Ok([])
  }

  /** A converted list field, stored under `key`, reads back as the records
      of its stored list. */
  lemma StoredListingRead(data: Dict<string, JValue>, key: string, l: Listing, kind: Kind, wrapped: bool,
                          coerce: ListCoercion)
    requires ListingToDict(l, coerce).Ok?
    requires Get(data, key) == Some(ListingToDict(l, coerce).value)
    ensures ReadListing(data, key, kind, wrapped).Ok? <==> StoredRecords(l, kind, coerce).Ok?
    ensures ReadListing(data, key, kind, wrapped).Ok?
            ==> ReadListing(data, key, kind, wrapped).value == Items(StoredRecords(l, kind, coerce).value)
  {
    assert Member(data, key, JNull) == ListingToDict(l, coerce).value;
  }

  /** Any text whose `to_dict` succeeds, the texts the app builds from
      decoded replies included, reads back with its nine scalar fields
      intact. Reading fails exactly when a stored list holds an element
      that makes no record of its class, and each list field reads back
      as the records its stored list makes. */
  lemma ConvertedTextReadBack(g: GeneratedText, coerce: ListCoercion, now: string)
    requires ToDict(g, coerce).Ok?
    ensures var r := FromDict(ToDict(g, coerce).value, now);
            r.Ok? <==> StoredRecords(g.keyWords, KeyWordKind, coerce).Ok?
                       && StoredRecords(g.questions, QuestionKind, coerce).Ok?
                       && StoredRecords(g.exercises, ExerciseKind, coerce).Ok?
                       && StoredRecords(g.translation, TranslationKind, coerce).Ok?
    ensures var r := FromDict(ToDict(g, coerce).value, now);
            r.Ok? ==> r.value.topic == g.topic && r.value.text == g.text && r.value.language == g.language
                      && r.value.level == g.level && r.value.textType == g.textType
                      && r.value.summary == g.summary && r.value.translationLanguage == g.translationLanguage
                      && r.value.timestamp == g.timestamp && r.value.wordCount == g.wordCount
    ensures var r := FromDict(ToDict(g, coerce).value, now);
            r.Ok? ==> r.value.keyWords == Items(StoredRecords(g.keyWords, KeyWordKind, coerce).value)
                      && r.value.questions == Items(StoredRecords(g.questions, QuestionKind, coerce).value)
                      && r.value.exercises == Items(StoredRecords(g.exercises, ExerciseKind, coerce).value)
                      && r.value.translation == Items(StoredRecords(g.translation, TranslationKind, coerce).value)
  {
    var kw := ListingToDict(g.keyWords, coerce).value;
    var qs := ListingToDict(g.questions, coerce).value;
    var ex := ListingToDict(g.exercises, coerce).value;
    var tr := ListingToDict(g.translation, coerce).value;
    var d := TextEntries(g, kw, qs, ex, tr);
    assert ToDict(g, coerce).value == d;
    TextEntryRead(g, kw, qs, ex, tr, 0);
    TextEntryRead(g, kw, qs, ex, tr, 1);
    TextEntryRead(g, kw, qs, ex, tr, 2);
    TextEntryRead(g, kw, qs, ex, tr, 3);
    TextEntryRead(g, kw, qs, ex, tr, 4);
    TextEntryRead(g, kw, qs, ex, tr, 5);
    TextEntryRead(g, kw, qs, ex, tr, 6);
    TextEntryRead(g, kw, qs, ex, tr, 7);
    TextEntryRead(g, kw, qs, ex, tr, 8);
    TextEntryRead(g, kw, qs, ex, tr, 9);
    TextEntryRead(g, kw, qs, ex, tr, 10);
    TextEntryRead(g, kw, qs, ex, tr, 11);
    TextEntryRead(g, kw, qs, ex, tr, 12);
    StoredListingRead(d, "key_words", g.keyWords, KeyWordKind, false, coerce);
    StoredListingRead(d, "questions", g.questions, QuestionKind, true, coerce);
    StoredListingRead(d, "exercises", g.exercises, ExerciseKind, true, coerce);
    StoredListingRead(d, "translation", g.translation, TranslationKind, false, coerce);
  }

  /** A dictionary holding only the four required entries reads as a new
      text: type "General", no summary, empty lists, no translation
      language, stamped `now`, word count 0. */
  lemma FromDictMinimal(topic: JValue, text: JValue, language: JValue, level: JValue, now: string)
    ensures FromDict([("topic", topic), ("text", text), ("language", language), ("level", level)], now)
            == Ok(NewText(topic, text, language, level, JStr("General"), JNum(0), now))
  {
    var d := [("topic", topic), ("text", text), ("language", language), ("level", level)];
    GetEntry(d, 0);
    GetEntry(d, 1);
    GetEntry(d, 2);
    GetEntry(d, 3);
    MissingKeys(d);
  }

  /** The short dictionary has none of the optional keys. */
  lemma MissingKeys(d: Dict<string, JValue>)
    requires |d| == 4 && d[0].0 == "topic" && d[1].0 == "text" && d[2].0 == "language" && d[3].0 == "level"
    ensures !HasKey(d, "text_type") && !HasKey(d, "summary") && !HasKey(d, "translation_language")
    ensures !HasKey(d, "timestamp") && !HasKey(d, "word_count")
    ensures !HasKey(d, "key_words") && !HasKey(d, "questions") && !HasKey(d, "exercises") && !HasKey(d, "translation")
  {
  }

  /** A questions or exercises entry may wrap its list in a dictionary under
      the same key and reads as the bare list would; a key-words or
      translation entry so wrapped is ignored and leaves the field empty. */
  lemma WrappedAccepted(wrappedData: Dict<string, JValue>, bareData: Dict<string, JValue>, key: string,
                        kind: Kind, elems: seq<JValue>)
    requires |elems| > 0
    requires Get(wrappedData, key) == Some(JObj([(key, JArr(elems))]))
    requires Get(bareData, key) == Some(JArr(elems))
    ensures ReadListing(wrappedData, key, kind, true) == ReadListing(bareData, key, kind, true)
    ensures ReadListing(wrappedData, key, kind, false) == Ok(Items([]))
  {
    var m: Dict<string, JValue> := [(key, JArr(elems))];
    GetEntry(m, 0);
    assert Member(wrappedData, key, JNull) == JObj(m);
    assert Member(bareData, key, JNull) == JArr(elems);
    assert Iterate(JArr(elems)) == Some(elems);
  }

  // ---------------------------------------------------------------------
  // Wrapped questions and exercises replies
  // ---------------------------------------------------------------------

  /** The reply shape the questions and exercises prompts ask for: an
      object holding the list under `key`. */
  function WrappedReply(key: string, elems: seq<JValue>): JValue {
    JObj([(key, JArr(elems))])
  }

  /** As written, the app stores such a reply as it is; `to_dict` then
      iterates the object, which visits its one key, so the stored list is
      `[{"value": key}]` and the questions themselves are gone. Reading
      that list back raises, since `{"value": ...}` is no question. */
  lemma WrappedReplyLost(key: string, elems: seq<JValue>, coerce: ListCoercion)
    requires key != ""
    ensures ListingToDict(ListingOf(WrappedReply(key, elems)), coerce)
            == Ok(JArr([JObj([("value", JStr(key))])]))
    ensures MakeRecords(QuestionKind, [JObj([("value", JStr(key))])]).Raised?
  {
    var v := WrappedReply(key, elems);
    assert Truthy(v);
    var keys := Iterate(v).value;
    assert keys == [JStr(key)];
    var l := ListingOf(JArr(keys));
    assert l.items == [Plain(JStr(key))];
    var out := ConvertList(l.items, coerce);
    assert out[0] == JObj(ConvertItem(Plain(JStr(key)), coerce)) == JObj([("value", JStr(key))]);
    assert out == [JObj([("value", JStr(key))])];
    var m: Dict<string, JValue> := [("value", JStr(key))];
    assert !ExactKeys(m, Fields(QuestionKind)) by {
      assert |"value"| != |"question"| && |"value"| != |"answer"|;
      assert m[0].0 !in Fields(QuestionKind);
    }
  }

  /** The list field the app keeps for a questions or exercises reply: the
      list an object reply wraps under `key`, and any other reply as it
      is. */
  function UnwrapListing(v: JValue, key: string): (l: Listing)
    ensures v.JObj? && HasKey(v.members, key) && Get(v.members, key).value.JArr?
            ==> l == ListingOf(Get(v.members, key).value)
    ensures !(v.JObj? && HasKey(v.members, key) && Get(v.members, key).value.JArr?) ==> l == ListingOf(v)
  {
    if v.JObj? && HasKey(v.members, key) && Get(v.members, key).value.JArr?
    then ListingOf(Get(v.members, key).value)
    else ListingOf(v)
  }

  /** Kept unwrapped, a reply's question (or exercise) objects are exactly
      what `to_dict` stores. */
  lemma WrappedReplyKept(key: string, elems: seq<JValue>, coerce: ListCoercion)
    requires |elems| > 0
    requires forall i :: 0 <= i < |elems| ==> elems[i].JObj?
    ensures ListingToDict(UnwrapListing(WrappedReply(key, elems), key), coerce) == Ok(JArr(elems))
  {
    var m: Dict<string, JValue> := [(key, JArr(elems))];
    GetEntry(m, 0);
    assert HasKey(m, key);
    var l := UnwrapListing(WrappedReply(key, elems), key);
    assert l == ListingOf(JArr(elems));
    assert l.Truthy();
    var out := ConvertList(l.items, coerce);
    forall i | 0 <= i < |elems| ensures out[i] == elems[i] {
      assert l.items[i] == Plain(elems[i]);
      assert ConvertItem(Plain(elems[i]), coerce) == elems[i].members;
    }
    assert out == elems;
  }

  /** Kept unwrapped, a reply of well-formed questions is stored as the
      question list and read back as the questions it held. */
  lemma WrappedQuestionsRoundTrip(key: string, elems: seq<JValue>, coerce: ListCoercion,
                                  data: Dict<string, JValue>)
    requires |elems| > 0
    requires forall i :: 0 <= i < |elems| ==> MakeRecord(QuestionKind, elems[i]).Some?
    requires Get(data, key) == Some(ListingToDict(UnwrapListing(WrappedReply(key, elems), key), coerce).value)
    ensures ReadListing(data, key, QuestionKind, true) == Ok(Items(MakeRecords(QuestionKind, elems).value))
  {
    WrappedReplyKept(key, elems, coerce);
  }
}
