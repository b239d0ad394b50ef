/** The hymnal editions the app can show (`HymnalLanguage`) and the older
    two-valued preference (`HymnalType`), with their lookup tables. */
module Languages {
  import opened Wrappers

  datatype HymnalLanguage = English1985 | English1941 | Spanish2009 | Russian

  /** `rawValue`, which is also the language's `id`. */
  function Id(l: HymnalLanguage): string {
    match l
    case English1985 => "en-newVersion"
    case English1941 => "en-oldVersion"
    case Spanish2009 => "es-newVersion"
    case Russian => "ru-newVersion"
  }

  /** `HymnalLanguage(rawValue:)`, used by `getLanguage(withId:)`: the language
      whose id is exactly `id`, and none for any other text. */
  function GetLanguage(id: string): (r: Option<HymnalLanguage>)
    ensures r.Some? ==> Id(r.value) == id
    ensures r.None? ==> forall l :: Id(l) != id
  {
    if id == "en-newVersion" then Some(English1985)
    else if id == "en-oldVersion" then Some(English1941)
    else if id == "es-newVersion" then Some(Spanish2009)
    else if id == "ru-newVersion" then Some(Russian)
    else None
  }

  /** Looking a language up by its own id finds that language. */
  lemma GetLanguageOfId(l: HymnalLanguage)
    ensures GetLanguage(Id(l)) == Some(l)
  {
  }

  function TwoLetterIsoLanguageName(l: HymnalLanguage): string {
    match l
    case English1985 | English1941 => "en"
    case Spanish2009 => "es"
    case Russian => "ru"
  }

  function Name(l: HymnalLanguage): string {
    match l
    case English1985 => "New Version 1985"
    case English1941 => "Old Version 1941"
    case Spanish2009 => "Nueva Versi\U{00F3}n 2009"
    case Russian => "\U{0420}\U{0443}\U{0441}\U{0441}\U{043A}\U{0430}\U{044F} \U{0412}\U{0435}\U{0440}\U{0441}\U{0438}\U{044F}"
  }

  function Detail(l: HymnalLanguage): string {
    match l
    case English1985 | English1941 => "English"
    case Spanish2009 => "Espa\U{00F1}ol"
    case Russian => "\U{0420}\U{0443}\U{0441}\U{0441}\U{043A}\U{0438}\U{0439}"
  }

  function Year(l: HymnalLanguage): int {
    match l
    case English1985 => 1985
    case English1941 => 1941
    case Spanish2009 => 2009
    case Russian => 2020
  }

  function HymnsFileName(l: HymnalLanguage): string {
    match l
    case English1985 => "new-hymnal-en.json"
    case English1941 => "old-hymnal-en.json"
    case Spanish2009 => "new-hymnal-es.json"
    case Russian => "new-hymnal-ru.json"
  }

  function ThematicHymnsFileName(l: HymnalLanguage): Option<string> {
    match l
    case English1985 | Spanish2009 | Russian =>
      Some("new-hymnal-thematic-list-" + TwoLetterIsoLanguageName(l) + ".json")
    case English1941 => Some("old-hymnal-thematic-list-en.json")
  }

  function HymnsSheetsFileName(l: HymnalLanguage): Option<string> {
    match l
    case English1985 | Spanish2009 | Russian =>
      Some("PianoSheet_NewHymnal_" + TwoLetterIsoLanguageName(l) + "_###")
    case English1941 => None
  }

  predicate SupportsThematicList(l: HymnalLanguage) {
    ThematicHymnsFileName(l).Some?
  }

  predicate SupportsSheets(l: HymnalLanguage) {
    HymnsSheetsFileName(l).Some?
  }

  /** The two English editions share the ISO code "en"; the others have their own. */
  lemma IsoCodes(l: HymnalLanguage)
    ensures TwoLetterIsoLanguageName(l) == "en" <==> (l == English1985 || l == English1941)
    ensures TwoLetterIsoLanguageName(l) == "es" <==> l == Spanish2009
    ensures TwoLetterIsoLanguageName(l) == "ru" <==> l == Russian
  {
  }

  /** Every edition reads its hymns from its own file. */
  lemma HymnsFileNameInjective(a: HymnalLanguage, b: HymnalLanguage)
    requires HymnsFileName(a) == HymnsFileName(b)
    ensures a == b
  {
  }

  /** Every edition has a thematic list, the 1941 one under the old-hymnal
      name and the others under the new-hymnal name with their ISO code. */
  lemma ThematicListAlwaysSupported(l: HymnalLanguage)
    ensures SupportsThematicList(l)
    ensures l == English1941 ==> ThematicHymnsFileName(l) == Some("old-hymnal-thematic-list-en.json")
    ensures l != English1941 ==>
              ThematicHymnsFileName(l) == Some("new-hymnal-thematic-list-" + TwoLetterIsoLanguageName(l) + ".json")
  {
  }

  /** Sheet music exists for every edition except 1941. */
  lemma SheetsSupportedExceptOld(l: HymnalLanguage)
    ensures SupportsSheets(l) <==> l != English1941
  {
  }

  /** The years are 1985, 1941, 2009 and 2020, one per edition. */
  lemma YearInjective(a: HymnalLanguage, b: HymnalLanguage)
    requires Year(a) == Year(b)
    ensures a == b
  {
  }

  // ---------------------------------------------------------------------------
  // HymnalType: the stored "selectedHymnal" preference
  // ---------------------------------------------------------------------------

  datatype HymnalType = Current | Old1941

  function TypeRawValue(t: HymnalType): string {
    match t
    case Current => "sda"
    case Old1941 => "old"
  }

  /** `HymnalType(rawValue:)`. */
  function TypeFromRawValue(s: string): (r: Option<HymnalType>)
    ensures r.Some? ==> TypeRawValue(r.value) == s
    ensures r.None? ==> forall t :: TypeRawValue(t) != s
  {
    if s == "sda" then Some(Current) else if s == "old" then Some(Old1941) else None
  }

  function DisplayName(t: HymnalType): string {
    match t
    case Current => "SDA Hymnal (1985)"
    case Old1941 => "Church Hymnal (1941)"
  }

  function NumberOfHymns(t: HymnalType): int {
    match t
    case Current => 695
    case Old1941 => 703
  }

  /** Both hymnals are English. */
  function LanguageCode(t: HymnalType): string {
    "en"
  }

  function JsonFileName(t: HymnalType): string {
    match t
    case Current => "hymnal-en"
    case Old1941 => "old_hymnal-en"
  }

  /** The raw values are distinct and `init(rawValue:)` inverts them. */
  lemma TypeRawValueRoundTrip(t: HymnalType)
    ensures TypeFromRawValue(TypeRawValue(t)) == Some(t)
    ensures TypeRawValue(Current) != TypeRawValue(Old1941)
  {
  }

  /** The two hymnals differ in display name and data file. */
  lemma TypeTablesDistinguish()
    ensures DisplayName(Current) != DisplayName(Old1941)
    ensures JsonFileName(Current) != JsonFileName(Old1941)
  {
  }

  /** Both books are English and hold some hymns; the 1941 book holds
      eight more than the 1985 one. */
  lemma HymnCounts(t: HymnalType)
    ensures NumberOfHymns(t) > 0 && LanguageCode(t) == "en"
    ensures NumberOfHymns(Old1941) == NumberOfHymns(Current) + 8
  {
  }

  /** No edition's id is the bare code "en" that `HymnalType.languageCode`
      gives, so every comparison of a language id with it is false. */
  lemma NoIdIsLanguageCode(l: HymnalLanguage, t: HymnalType)
    ensures Id(l) != LanguageCode(t)
  {
  }
}
