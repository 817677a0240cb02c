/** The media detail page's choice of title, short description and long
    description among a media item's localised variants, following the
    user's ordered list of preferred languages. */
module MediaPage {
  import opened Options

  type Language = string

  /** One entry of a media item's `titles`. */
  datatype LocalizedTitle = LocalizedTitle(language: Language, title: string)

  /** The `type` of a description: `'short'` or `'long'`. */
  datatype DescriptionType = Short | Long

  /** One entry of a media item's `descriptions`. */
  datatype LocalizedDescription =
    LocalizedDescription(language: Language, descriptionType: DescriptionType, description: string)

  /** The three texts the page shows. */
  datatype LocalizedText = LocalizedText(title: string, description: string, longDescription: string)

  // ---------------------------------------------------------------------------
  // Specification. Each function scans its list from the front: the answer for
  // a list is the answer for the list without its last entry, unless that has
  // none, in which case the last entry is considered.
  // ---------------------------------------------------------------------------

  /** The title of the first entry of `titles` written in `language`. */
  function TitleIn(titles: seq<LocalizedTitle>, language: Language): Option<string>
  {
    if |titles| == 0 then None
    else
      var last := titles[|titles| - 1];
      match TitleIn(titles[..|titles| - 1], language)
      case Some(t) => Some(t)
      case None => if last.language == language then Some(last.title) else None
  }

  /** The text of the first entry of `descriptions` written in `language`
      whose type is `kind`. */
  function DescriptionIn(descriptions: seq<LocalizedDescription>, language: Language,
                         kind: DescriptionType): Option<string>
  {
    if |descriptions| == 0 then None
    else
      var last := descriptions[|descriptions| - 1];
      match DescriptionIn(descriptions[..|descriptions| - 1], language, kind)
      case Some(d) => Some(d)
      case None =>
        if last.language == language && last.descriptionType == kind then Some(last.description) else None
  }

  /** The title in the earliest of `languages` that has one. */
  function PreferredTitle(languages: seq<Language>, titles: seq<LocalizedTitle>): Option<string>
  {
    if |languages| == 0 then None
    else
      match PreferredTitle(languages[..|languages| - 1], titles)
      case Some(t) => Some(t)
      case None => TitleIn(titles, languages[|languages| - 1])
  }

  /** The description of type `kind` in the earliest of `languages` that has one. */
  function PreferredDescription(languages: seq<Language>, descriptions: seq<LocalizedDescription>,
                                kind: DescriptionType): Option<string>
  {
    if |languages| == 0 then None
    else
      match PreferredDescription(languages[..|languages| - 1], descriptions, kind)
      case Some(d) => Some(d)
      case None => DescriptionIn(descriptions, languages[|languages| - 1], kind)
  }

  /** The entries of `descriptions` whose type is `kind`, in order. */
  function OfType(descriptions: seq<LocalizedDescription>, kind: DescriptionType): (r: seq<LocalizedDescription>)
    ensures |r| <= |descriptions|
    ensures forall i | 0 <= i < |r| :: r[i].descriptionType == kind
  {
    if |descriptions| == 0 then []
    else
      var last := descriptions[|descriptions| - 1];
      OfType(descriptions[..|descriptions| - 1], kind) + (if last.descriptionType == kind then [last] else [])
  }

  /** The configured language list, or none when the configuration is absent. */
  function LanguageList(languages: Option<seq<Language>>): seq<Language>
  {
    languages.GetOr([])
  }

  /** What the page shows once opened: the preferred variant of each text, or
      the first entry of the list when no preferred language has one. The
      fallback reads `titles[0]` and `descriptions[0]`, and an empty list can
      never match, so both lists must be non-empty. */
  function Localize(languages: Option<seq<Language>>, titles: seq<LocalizedTitle>,
                    descriptions: seq<LocalizedDescription>): (r: LocalizedText)
    requires |titles| > 0 && |descriptions| > 0
    ensures exists j :: 0 <= j < |titles| && r.title == titles[j].title
    ensures exists j :: 0 <= j < |descriptions| && r.description == descriptions[j].description
    ensures exists j :: 0 <= j < |descriptions| && r.longDescription == descriptions[j].description
  {
    var langs := LanguageList(languages);
    var t := PreferredTitle(langs, titles);
    var d := PreferredDescription(langs, descriptions, Short);
    var l := PreferredDescription(langs, descriptions, Long);
    PreferredTitleIsSomeEntry(langs, titles);
    PreferredDescriptionIsSomeEntry(langs, descriptions, Short);
    PreferredDescriptionIsSomeEntry(langs, descriptions, Long);
    LocalizedText(t.GetOr(titles[0].title), d.GetOr(descriptions[0].description),
                  l.GetOr(descriptions[0].description))
  }

  // ---------------------------------------------------------------------------
  // First match within one language
  // ---------------------------------------------------------------------------

  /** A found title is the title of some entry in that language. */
  lemma {:induction false} TitleInIsSomeEntry(titles: seq<LocalizedTitle>, language: Language)
    ensures TitleIn(titles, language).Some? ==>
      exists j :: 0 <= j < |titles| && titles[j].language == language && TitleIn(titles, language).value == titles[j].title
  {
    if |titles| > 0 {
      var init := titles[..|titles| - 1];
      TitleInIsSomeEntry(init, language);
      if TitleIn(init, language).Some? {
        var j :| 0 <= j < |init| && init[j].language == language && TitleIn(init, language).value == init[j].title;
        assert titles[j] == init[j];
      }
    }
  }

  /** No title is found exactly when no entry is written in `language`. */
  lemma {:induction false} TitleInNone(titles: seq<LocalizedTitle>, language: Language)
    ensures TitleIn(titles, language).None? <==> forall j | 0 <= j < |titles| :: titles[j].language != language
  {
    if |titles| > 0 {
      var init := titles[..|titles| - 1];
      TitleInNone(init, language);
      assert forall j | 0 <= j < |init| :: init[j] == titles[j];
    }
  }

  /** The title found is that of the FIRST entry written in `language`. */
  lemma {:induction false} TitleInIsFirstMatch(titles: seq<LocalizedTitle>, language: Language, j: nat)
    requires j < |titles| && titles[j].language == language
    requires forall k | 0 <= k < j :: titles[k].language != language
    ensures TitleIn(titles, language) == Some(titles[j].title)
  {
    var init := titles[..|titles| - 1];
    if j < |init| {
      TitleInIsFirstMatch(init, language, j);
    } else {
      assert forall k | 0 <= k < |init| :: init[k] == titles[k];
      TitleInNone(init, language);
    }
  }

  /** A found description is the text of some entry of that language and type. */
  lemma {:induction false} DescriptionInIsSomeEntry(descriptions: seq<LocalizedDescription>, language: Language,
                                                     kind: DescriptionType)
    ensures DescriptionIn(descriptions, language, kind).Some? ==>
      exists j :: 0 <= j < |descriptions| && descriptions[j].language == language &&
        descriptions[j].descriptionType == kind &&
        DescriptionIn(descriptions, language, kind).value == descriptions[j].description
  {
    if |descriptions| > 0 {
      var init := descriptions[..|descriptions| - 1];
      DescriptionInIsSomeEntry(init, language, kind);
      if DescriptionIn(init, language, kind).Some? {
        var j :| 0 <= j < |init| && init[j].language == language && init[j].descriptionType == kind &&
          DescriptionIn(init, language, kind).value == init[j].description;
        assert descriptions[j] == init[j];
      }
    }
  }

  /** No description is found exactly when no entry has that language and type. */
  lemma {:induction false} DescriptionInNone(descriptions: seq<LocalizedDescription>, language: Language,
                                             kind: DescriptionType)
    ensures DescriptionIn(descriptions, language, kind).None? <==>
      forall j | 0 <= j < |descriptions| :: !(descriptions[j].language == language && descriptions[j].descriptionType == kind)
  {
    if |descriptions| > 0 {
      var init := descriptions[..|descriptions| - 1];
      DescriptionInNone(init, language, kind);
      assert forall j | 0 <= j < |init| :: init[j] == descriptions[j];
    }
  }

  /** The description found is that of the FIRST entry of that language and type. */
  lemma {:induction false} DescriptionInIsFirstMatch(descriptions: seq<LocalizedDescription>, language: Language,
                                                     kind: DescriptionType, j: nat)
    requires j < |descriptions| && descriptions[j].language == language && descriptions[j].descriptionType == kind
    requires forall k | 0 <= k < j :: !(descriptions[k].language == language && descriptions[k].descriptionType == kind)
    ensures DescriptionIn(descriptions, language, kind) == Some(descriptions[j].description)
  {
    var init := descriptions[..|descriptions| - 1];
    if j < |init| {
      DescriptionInIsFirstMatch(init, language, kind, j);
    } else {
      assert forall k | 0 <= k < |init| :: init[k] == descriptions[k];
      DescriptionInNone(init, language, kind);
    }
  }

  /** Only entries of type `kind` matter: dropping every other entry changes nothing. */
  lemma {:induction false} DescriptionInOnlyOfType(descriptions: seq<LocalizedDescription>, language: Language,
                                                   kind: DescriptionType)
    ensures DescriptionIn(descriptions, language, kind) == DescriptionIn(OfType(descriptions, kind), language, kind)
  {
    if |descriptions| > 0 {
      var init := descriptions[..|descriptions| - 1];
      var last := descriptions[|descriptions| - 1];
      DescriptionInOnlyOfType(init, language, kind);
      var filteredInit := OfType(init, kind);
      if last.descriptionType == kind {
        var filtered := filteredInit + [last];
        assert OfType(descriptions, kind) == filtered;
        assert filtered[..|filtered| - 1] == filteredInit;
        assert DescriptionIn(filtered, language, kind) == DescriptionIn(descriptions, language, kind);
      } else {
        assert OfType(descriptions, kind) == filteredInit + [];
        assert filteredInit + [] == filteredInit;
        assert DescriptionIn(descriptions, language, kind) == DescriptionIn(init, language, kind);
      }
    }
  }

  // ---------------------------------------------------------------------------
  // Preference order over languages
  // ---------------------------------------------------------------------------

  /** A preferred title is the title of some entry. */
  lemma {:induction false} PreferredTitleIsSomeEntry(languages: seq<Language>, titles: seq<LocalizedTitle>)
    ensures PreferredTitle(languages, titles).Some? ==>
      exists j :: 0 <= j < |titles| && PreferredTitle(languages, titles).value == titles[j].title
  {
    if |languages| > 0 {
      var init := languages[..|languages| - 1];
      PreferredTitleIsSomeEntry(init, titles);
      TitleInIsSomeEntry(titles, languages[|languages| - 1]);
    }
  }

  /** A preferred description is the text of some entry of that type. */
  lemma {:induction false} PreferredDescriptionIsSomeEntry(languages: seq<Language>,
                                                          descriptions: seq<LocalizedDescription>,
                                                          kind: DescriptionType)
    ensures PreferredDescription(languages, descriptions, kind).Some? ==>
      exists j :: 0 <= j < |descriptions| && descriptions[j].descriptionType == kind &&
        PreferredDescription(languages, descriptions, kind).value == descriptions[j].description
  {
    if |languages| > 0 {
      var init := languages[..|languages| - 1];
      PreferredDescriptionIsSomeEntry(init, descriptions, kind);
      DescriptionInIsSomeEntry(descriptions, languages[|languages| - 1], kind);
    }
  }

  /** No title is preferred exactly when no listed language has a title. */
  lemma {:induction false} PreferredTitleNone(languages: seq<Language>, titles: seq<LocalizedTitle>)
    ensures PreferredTitle(languages, titles).None? <==>
      forall i | 0 <= i < |languages| :: TitleIn(titles, languages[i]).None?
  {
    if |languages| > 0 {
      var init := languages[..|languages| - 1];
      PreferredTitleNone(init, titles);
      assert forall i | 0 <= i < |init| :: init[i] == languages[i];
    }
  }

  /** The preferred title is the first title in the EARLIEST listed language
      that has any title. */
  lemma {:induction false} PreferredTitleIsEarliestLanguage(languages: seq<Language>, titles: seq<LocalizedTitle>,
                                                           i: nat)
    requires i < |languages| && TitleIn(titles, languages[i]).Some?
    requires forall k | 0 <= k < i :: TitleIn(titles, languages[k]).None?
    ensures PreferredTitle(languages, titles) == TitleIn(titles, languages[i])
  {
    var init := languages[..|languages| - 1];
    if i < |init| {
      PreferredTitleIsEarliestLanguage(init, titles, i);
    } else {
      assert forall k | 0 <= k < |init| :: init[k] == languages[k];
      PreferredTitleNone(init, titles);
    }
  }

  /** A language listed after one that has a title is never the source of the
      preferred title: the choice comes from that language or an earlier one. */
  lemma {:induction false} PreferredTitleNoLaterThan(languages: seq<Language>, titles: seq<LocalizedTitle>, i: nat)
    requires i < |languages| && TitleIn(titles, languages[i]).Some?
    ensures exists e :: 0 <= e <= i && PreferredTitle(languages, titles) == TitleIn(titles, languages[e]) &&
                        TitleIn(titles, languages[e]).Some? &&
                        (forall k | 0 <= k < e :: TitleIn(titles, languages[k]).None?)
  {
    var e := EarliestWithTitle(languages, titles, i + 1);
    PreferredTitleIsEarliestLanguage(languages, titles, e);
  }

  /** Some `e < bound` whose language has a title, with none before it. */
  lemma {:induction false} EarliestWithTitle(languages: seq<Language>, titles: seq<LocalizedTitle>, bound: nat)
    returns (e: nat)
    requires bound <= |languages|
    requires exists k :: 0 <= k < bound && TitleIn(titles, languages[k]).Some?
    ensures e < bound && TitleIn(titles, languages[e]).Some?
    ensures forall k | 0 <= k < e :: TitleIn(titles, languages[k]).None?
  {
    if forall k | 0 <= k < bound - 1 :: TitleIn(titles, languages[k]).None? {
      e := bound - 1;
    } else {
      e := EarliestWithTitle(languages, titles, bound - 1);
    }
  }

  /** No description of type `kind` is preferred exactly when no listed
      language has one. */
  lemma {:induction false} PreferredDescriptionNone(languages: seq<Language>, descriptions: seq<LocalizedDescription>,
                                                    kind: DescriptionType)
    ensures PreferredDescription(languages, descriptions, kind).None? <==>
      forall i | 0 <= i < |languages| :: DescriptionIn(descriptions, languages[i], kind).None?
  {
    if |languages| > 0 {
      var init := languages[..|languages| - 1];
      PreferredDescriptionNone(init, descriptions, kind);
      assert forall i | 0 <= i < |init| :: init[i] == languages[i];
    }
  }

  /** The preferred description of type `kind` is the first one in the EARLIEST
      listed language that has one of that type. */
  lemma {:induction false} PreferredDescriptionIsEarliestLanguage(languages: seq<Language>,
                                                                 descriptions: seq<LocalizedDescription>,
                                                                 kind: DescriptionType, i: nat)
    requires i < |languages| && DescriptionIn(descriptions, languages[i], kind).Some?
    requires forall k | 0 <= k < i :: DescriptionIn(descriptions, languages[k], kind).None?
    ensures PreferredDescription(languages, descriptions, kind) == DescriptionIn(descriptions, languages[i], kind)
  {
    var init := languages[..|languages| - 1];
    if i < |init| {
      PreferredDescriptionIsEarliestLanguage(init, descriptions, kind, i);
    } else {
      assert forall k | 0 <= k < |init| :: init[k] == languages[k];
      PreferredDescriptionNone(init, descriptions, kind);
    }
  }

  /** The short description looks only at `'short'` entries and the long one
      only at `'long'` entries. */
  lemma {:induction false} PreferredDescriptionOnlyOfType(languages: seq<Language>,
                                                         descriptions: seq<LocalizedDescription>,
                                                         kind: DescriptionType)
    ensures PreferredDescription(languages, descriptions, kind) ==
            PreferredDescription(languages, OfType(descriptions, kind), kind)
  {
    if |languages| > 0 {
      PreferredDescriptionOnlyOfType(languages[..|languages| - 1], descriptions, kind);
      DescriptionInOnlyOfType(descriptions, languages[|languages| - 1], kind);
    }
  }

  // ---------------------------------------------------------------------------
  // The texts shown
  // ---------------------------------------------------------------------------

  /** With no preferred language that has a title (or no language list at all)
      the title is that of the first entry. */
  lemma TitleFallback(languages: Option<seq<Language>>, titles: seq<LocalizedTitle>,
                      descriptions: seq<LocalizedDescription>)
    requires |titles| > 0 && |descriptions| > 0
    requires forall i, j | 0 <= i < |LanguageList(languages)| && 0 <= j < |titles| ::
      titles[j].language != LanguageList(languages)[i]
    ensures Localize(languages, titles, descriptions).title == titles[0].title
  {
    var langs := LanguageList(languages);
    forall i | 0 <= i < |langs| ensures TitleIn(titles, langs[i]).None? {
      TitleInNone(titles, langs[i]);
    }
    PreferredTitleNone(langs, titles);
  }

  /** With no preferred language that has a description of a type, that text
      is the first description, WHATEVER its type. */
  lemma DescriptionFallback(languages: Option<seq<Language>>, titles: seq<LocalizedTitle>,
                            descriptions: seq<LocalizedDescription>, kind: DescriptionType)
    requires |titles| > 0 && |descriptions| > 0
    requires forall i, j | 0 <= i < |LanguageList(languages)| && 0 <= j < |descriptions| ::
      !(descriptions[j].language == LanguageList(languages)[i] && descriptions[j].descriptionType == kind)
    ensures var r := Localize(languages, titles, descriptions);
      (if kind == Short then r.description else r.longDescription) == descriptions[0].description
  {
    var langs := LanguageList(languages);
    forall i | 0 <= i < |langs| ensures DescriptionIn(descriptions, langs[i], kind).None? {
      DescriptionInNone(descriptions, langs[i], kind);
    }
    PreferredDescriptionNone(langs, descriptions, kind);
  }

  /** The title shown is the first title of the earliest preferred language
      that has one. */
  lemma TitleFromEarliestLanguage(languages: seq<Language>, titles: seq<LocalizedTitle>,
                                  descriptions: seq<LocalizedDescription>, i: nat, j: nat)
    requires |descriptions| > 0
    requires i < |languages| && j < |titles| && titles[j].language == languages[i]
    requires forall k | 0 <= k < j :: titles[k].language != languages[i]
    requires forall k, m | 0 <= k < i && 0 <= m < |titles| :: titles[m].language != languages[k]
    ensures Localize(Some(languages), titles, descriptions).title == titles[j].title
  {
    forall k | 0 <= k < i ensures TitleIn(titles, languages[k]).None? {
      TitleInNone(titles, languages[k]);
    }
    TitleInIsFirstMatch(titles, languages[i], j);
    PreferredTitleIsEarliestLanguage(languages, titles, i);
  }

  /** The short (or long) description shown is the first one of that type in
      the earliest preferred language that has one. */
  lemma DescriptionFromEarliestLanguage(languages: seq<Language>, titles: seq<LocalizedTitle>,
                                        descriptions: seq<LocalizedDescription>, kind: DescriptionType,
                                        i: nat, j: nat)
    requires |titles| > 0
    requires i < |languages| && j < |descriptions|
    requires descriptions[j].language == languages[i] && descriptions[j].descriptionType == kind
    requires forall k | 0 <= k < j :: !(descriptions[k].language == languages[i] && descriptions[k].descriptionType == kind)
    requires forall k, m | 0 <= k < i && 0 <= m < |descriptions| ::
      !(descriptions[m].language == languages[k] && descriptions[m].descriptionType == kind)
    ensures var r := Localize(Some(languages), titles, descriptions);
      (if kind == Short then r.description else r.longDescription) == descriptions[j].description
  {
    forall k | 0 <= k < i ensures DescriptionIn(descriptions, languages[k], kind).None? {
      DescriptionInNone(descriptions, languages[k], kind);
    }
    DescriptionInIsFirstMatch(descriptions, languages[i], kind, j);
    PreferredDescriptionIsEarliestLanguage(languages, descriptions, kind, i);
  }

  /** Illustration of `DescriptionFallback`: only the first description is
      used as the fallback for both texts: a media item whose one description is long shows it as the short one too. */
  lemma LongDescriptionServesAsShort()
    ensures var descriptions := [LocalizedDescription("en", Long, "A long text")];
      Localize(Some(["en"]), [LocalizedTitle("en", "Game")], descriptions) ==
      LocalizedText("Game", "A long text", "A long text")
  {
    var descriptions := [LocalizedDescription("en", Long, "A long text")];
    assert descriptions[..0] == [];
    assert ["en"][..0] == [];
    assert [LocalizedTitle("en", "Game")][..0] == [];
  }

  // ---------------------------------------------------------------------------
  // The page's state and the effect that fills it
  // ---------------------------------------------------------------------------

  /** The page's React state: `undefined` is `None`. The counters record how
      many times each state setter has been called. */
  class PageState {
    var title: Option<string>
    var description: Option<string>
    var longDescription: Option<string>
    var titleUpdates: nat
    var descriptionUpdates: nat
    var longDescriptionUpdates: nat

    /** The state when the page is first rendered. */
    constructor ()
      ensures title == None && description == None && longDescription == None
      ensures titleUpdates == 0 && descriptionUpdates == 0 && longDescriptionUpdates == 0
    {
      title, description, longDescription := None, None, None;
      titleUpdates, descriptionUpdates, longDescriptionUpdates := 0, 0, 0;
    }

    /** The title closure for one language: the first entry of `titles` in
        `language`, if any, becomes the title, with one setter call. */
    method ScanTitles(language: Language, titles: seq<LocalizedTitle>) returns (found: bool)
      modifies this`title, this`titleUpdates
      ensures found == TitleIn(titles, language).Some?
      ensures found ==> title == TitleIn(titles, language) && titleUpdates == old(titleUpdates) + 1
      ensures !found ==> title == old(title) && titleUpdates == old(titleUpdates)
    {
      found := false;
      var j := 0;
      while j < |titles|
        invariant 0 <= j <= |titles|
        invariant found == TitleIn(titles[..j], language).Some?
        invariant found ==> title == TitleIn(titles[..j], language) && titleUpdates == old(titleUpdates) + 1
        invariant !found ==> title == old(title) && titleUpdates == old(titleUpdates)
      {
        assert titles[..j + 1][..j] == titles[..j];
        if titles[j].language == language && !found {
          found := true;
          title, titleUpdates := Some(titles[j].title), titleUpdates + 1;
        }
        j := j + 1;
      }
      assert titles[..j] == titles;
    }

    /** The short-description closure for one language: the first `'short'`
        entry in `language`, if any, becomes the description. */
    method ScanShortDescriptions(language: Language, descriptions: seq<LocalizedDescription>) returns (found: bool)
      modifies this`description, this`descriptionUpdates
      ensures found == DescriptionIn(descriptions, language, Short).Some?
      ensures found ==>
        description == DescriptionIn(descriptions, language, Short) && descriptionUpdates == old(descriptionUpdates) + 1
      ensures !found ==> description == old(description) && descriptionUpdates == old(descriptionUpdates)
    {
      found := false;
      var j := 0;
      while j < |descriptions|
        invariant 0 <= j <= |descriptions|
        invariant found == DescriptionIn(descriptions[..j], language, Short).Some?
        invariant found ==>
          description == DescriptionIn(descriptions[..j], language, Short) &&
          descriptionUpdates == old(descriptionUpdates) + 1
        invariant !found ==> description == old(description) && descriptionUpdates == old(descriptionUpdates)
      {
        assert descriptions[..j + 1][..j] == descriptions[..j];
        if descriptions[j].language == language && descriptions[j].descriptionType == Short && !found {
          found := true;
          description, descriptionUpdates := Some(descriptions[j].description), descriptionUpdates + 1;
        }
        j := j + 1;
      }
      assert descriptions[..j] == descriptions;
    }

    /** The long-description closure for one language: the first `'long'`
        entry in `language`, if any, becomes the long description. */
    method ScanLongDescriptions(language: Language, descriptions: seq<LocalizedDescription>) returns (found: bool)
      modifies this`longDescription, this`longDescriptionUpdates
      ensures found == DescriptionIn(descriptions, language, Long).Some?
      ensures found ==>
        longDescription == DescriptionIn(descriptions, language, Long) &&
        longDescriptionUpdates == old(longDescriptionUpdates) + 1
      ensures !found ==> longDescription == old(longDescription) && longDescriptionUpdates == old(longDescriptionUpdates)
    {
      found := false;
      var j := 0;
      while j < |descriptions|
        invariant 0 <= j <= |descriptions|
        invariant found == DescriptionIn(descriptions[..j], language, Long).Some?
        invariant found ==>
          longDescription == DescriptionIn(descriptions[..j], language, Long) &&
          longDescriptionUpdates == old(longDescriptionUpdates) + 1
        invariant !found ==> longDescription == old(longDescription) && longDescriptionUpdates == old(longDescriptionUpdates)
      {
        assert descriptions[..j + 1][..j] == descriptions[..j];
        if descriptions[j].language == language && descriptions[j].descriptionType == Long && !found {
          found := true;
          longDescription, longDescriptionUpdates := Some(descriptions[j].description), longDescriptionUpdates + 1;
        }
        j := j + 1;
      }
      assert descriptions[..j] == descriptions;
    }

    /** The effect run when the page opens: walk the preferred languages, in
        each take the first matching title, short and long description unless
        one was already found, then fall back to the first entries. Each setter
        is called exactly once when `open`; nothing happens otherwise. */
    method SelectTexts(open: bool, languages: Option<seq<Language>>, titles: seq<LocalizedTitle>,
                       descriptions: seq<LocalizedDescription>)
      requires open ==> |titles| > 0 && |descriptions| > 0
      modifies this
      ensures open ==>
        var r := Localize(languages, titles, descriptions);
        title == Some(r.title) && description == Some(r.description) && longDescription == Some(r.longDescription)
      ensures open ==>
        titleUpdates == old(titleUpdates) + 1 && descriptionUpdates == old(descriptionUpdates) + 1 &&
        longDescriptionUpdates == old(longDescriptionUpdates) + 1
      ensures !open ==> unchanged(this)
    {
      if open {
        var foundTitle, foundDescription, foundLongDescription := false, false, false;
        var langs := LanguageList(languages);
        var i := 0;
        while i < |langs|
          invariant 0 <= i <= |langs|
          invariant foundTitle == PreferredTitle(langs[..i], titles).Some?
          invariant foundTitle ==> title == PreferredTitle(langs[..i], titles)
          invariant titleUpdates == old(titleUpdates) + (if foundTitle then 1 else 0)
          invariant foundDescription == PreferredDescription(langs[..i], descriptions, Short).Some?
          invariant foundDescription ==> description == PreferredDescription(langs[..i], descriptions, Short)
          invariant descriptionUpdates == old(descriptionUpdates) + (if foundDescription then 1 else 0)
          invariant foundLongDescription == PreferredDescription(langs[..i], descriptions, Long).Some?
          invariant foundLongDescription ==> longDescription == PreferredDescription(langs[..i], descriptions, Long)
          invariant longDescriptionUpdates == old(longDescriptionUpdates) + (if foundLongDescription then 1 else 0)
        {
          var language := langs[i];
          assert langs[..i + 1][..i] == langs[..i];
          if !foundTitle {
            foundTitle := ScanTitles(language, titles);
          }
          if !foundDescription {
            foundDescription := ScanShortDescriptions(language, descriptions);
          }
          if !foundLongDescription {
            foundLongDescription := ScanLongDescriptions(language, descriptions);
          }
          i := i + 1;
        }
        assert langs[..i] == langs;

        if !foundTitle {
          title, titleUpdates := Some(titles[0].title), titleUpdates + 1;
        }
        if !foundDescription {
          description, descriptionUpdates := Some(descriptions[0].description), descriptionUpdates + 1;
        }
        if !foundLongDescription {
          longDescription, longDescriptionUpdates := Some(descriptions[0].description), longDescriptionUpdates + 1;
        }
      }
    }
  }
}
