/** Projection of a stored word onto the client's view of it in one
    language: every label becomes its text in that language. */
module WordServiceAdapter {
  import opened Common

  /** A text in every supported language. */
  datatype Label = Label(en: string, fr: string)

  /** A level: its category and the names it is known by; a level name may
      be missing. */
  datatype Level = Level(category: Label, levelNames: seq<Option<Label>>)

  /** A stored word; a tag may be missing. */
  datatype Word = Word(id: Uuid, kanji: string, onyomi: string, kunyomi: string, imageUrl: string,
                       translation: Label, tags: seq<Option<Label>>, levels: seq<Level>)

  datatype LevelDto = LevelDto(category: string, levelNames: seq<string>)

  datatype WordDto = WordDto(id: Uuid, kanji: string, onyomi: string, kunyomi: string, imageUrl: string,
                             translation: string, tags: seq<string>, levels: seq<LevelDto>)

  /** Whether a language code has texts. */
  predicate Supported(lang: string)
  {
    lang == "en" || lang == "fr"
  }

  /** The text of a label in a language: English for "en", French for "fr",
      and empty for a missing label or any other language. */
  function ExtractLabel(entry: Option<Label>, lang: string): (text: string)
    ensures entry.None? || !Supported(lang) ==> text == ""
    ensures entry.Some? && lang == "en" ==> text == entry.value.en
    ensures entry.Some? && lang == "fr" ==> text == entry.value.fr
  {
    match entry
    case None => ""
    case Some(l) =>
      if lang == "en" then l.en
      else if lang == "fr" then l.fr
      else ""
  }

  /** Each label of a list, in order, in one language. */
  function ExtractLabels(labels: seq<Option<Label>>, lang: string): (texts: seq<string>)
    ensures |texts| == |labels|
    ensures forall i :: 0 <= i < |labels| ==> texts[i] == ExtractLabel(labels[i], lang)
  {
    seq(|labels|, i requires 0 <= i < |labels| => ExtractLabel(labels[i], lang))
  }

  /** A level in one language. */
  function MapLevel(level: Level, lang: string): (dto: LevelDto)
    ensures dto.category == ExtractLabel(Some(level.category), lang)
    ensures |dto.levelNames| == |level.levelNames|
    ensures forall i :: 0 <= i < |level.levelNames| ==> dto.levelNames[i] == ExtractLabel(level.levelNames[i], lang)
  {
    LevelDto(ExtractLabel(Some(level.category), lang), ExtractLabels(level.levelNames, lang))
  }

  /** A word in one language: nothing for no word; otherwise identifier,
      kanji, readings and image copied, the translation, tags and levels
      mapped one to one and in order. */
  function MapWordToDto(word: Option<Word>, lang: string): (dto: Option<WordDto>)
    ensures word.None? <==> dto.None?
    ensures word.Some? ==>
      var w := word.value;
      var d := dto.value;
      && d.id == w.id && d.kanji == w.kanji && d.onyomi == w.onyomi && d.kunyomi == w.kunyomi
      && d.imageUrl == w.imageUrl
      && d.translation == ExtractLabel(Some(w.translation), lang)
      && |d.tags| == |w.tags|
      && (forall i :: 0 <= i < |w.tags| ==> d.tags[i] == ExtractLabel(w.tags[i], lang))
      && |d.levels| == |w.levels|
      && (forall i :: 0 <= i < |w.levels| ==> d.levels[i] == MapLevel(w.levels[i], lang))
  {
    match word
    case None => None
    case Some(w) =>
      Some(WordDto(w.id, w.kanji, w.onyomi, w.kunyomi, w.imageUrl,
                   ExtractLabel(Some(w.translation), lang),
                   ExtractLabels(w.tags, lang),
                   seq(|w.levels|, i requires 0 <= i < |w.levels| => MapLevel(w.levels[i], lang))))
  }

  /** The French view of a word carries the French texts, as the word
      read-back scenario checks. */
  lemma FrenchViewShowsFrenchTexts(w: Word)
    ensures var d := MapWordToDto(Some(w), "fr").value;
      && d.translation == w.translation.fr
      && (forall i :: 0 <= i < |w.tags| && w.tags[i].Some? ==> d.tags[i] == w.tags[i].value.fr)
      && (forall i :: 0 <= i < |w.levels| ==> d.levels[i].category == w.levels[i].category.fr)
  {
  }

  /** In an unsupported language every text of the view is empty while the
      shape of the word is kept. */
  lemma UnsupportedLanguageBlanksTexts(w: Word, lang: string)
    requires !Supported(lang)
    ensures var d := MapWordToDto(Some(w), lang).value;
      && d.translation == ""
      && (forall i :: 0 <= i < |d.tags| ==> d.tags[i] == "")
      && |d.levels| == |w.levels|
      && (forall i, k :: 0 <= i < |d.levels| && 0 <= k < |d.levels[i].levelNames| ==>
            d.levels[i].category == "" && d.levels[i].levelNames[k] == "")
  {
  }
}
