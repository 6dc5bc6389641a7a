/** The language table and the key-word counts per proficiency level. */
module LanguageData {
  import opened Wrappers
  import opened PyDict

  /** `LANGUAGE_MAP`: every supported language maps to its own English name. */
  const LanguageMap: Dict<string, string> := [
    ("English", "English"), ("Turkish", "Turkish"), ("German", "German"),
    ("French", "French"), ("Spanish", "Spanish"), ("Italian", "Italian"),
    ("Dutch", "Dutch"), ("Russian", "Russian"), ("Portuguese", "Portuguese"),
    ("Japanese", "Japanese")
  ]

  /** `DIFFICULTY_WORDS_COUNT` */
  const DifficultyWords: Dict<string, int> := [("A1-A2", 5), ("B1-B2", 8), ("C1-C2", 10)]

  /** `LANGUAGE_MAP.get(language, language)`: the English name used in prompts.
      The table is the identity on its keys and the fallback is the input, so
      the name is always the input itself. */
  function LanguageName(language: string): (r: string)
    ensures r == language
  {
    GetIdentity(LanguageMap, language);
    GetOr(LanguageMap, language, language)
  }

  /** `DIFFICULTY_WORDS_COUNT.get(level, 5)`: how many key words to ask for. */
  function DifficultyWordsCount(level: string): (r: int)
    ensures level == "A1-A2" ==> r == 5
    ensures level == "B1-B2" ==> r == 8
    ensures level == "C1-C2" ==> r == 10
    ensures level != "A1-A2" && level != "B1-B2" && level != "C1-C2" ==> r == 5
  {
    GetEntry(DifficultyWords, 0);
    GetEntry(DifficultyWords, 1);
    GetEntry(DifficultyWords, 2);
    GetOr(DifficultyWords, level, 5)
  }
}
