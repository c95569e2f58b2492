/** The bilingual `display_*` properties of Action and Objective, as the
    tests in tracker_app/tests.py pin them: the Irish value is shown in Irish
    when it is not empty, and otherwise the English one; an Action's update
    is shown only once the Action is approved. */
module Display {
  import opened Models

  /** The active language; every code other than `ga` reads as English. */
  datatype Lang = English | Irish

  /** The one fallback rule: Irish text when the language is Irish and the
      text is there, else the English text. */
  function Localized(lang: Lang, en: string, ga: string): (r: string)
    ensures lang == Irish && ga != [] ==> r == ga
    ensures lang == English || ga == [] ==> r == en
  {
    if lang == Irish && ga != [] then ga else en
  }

  /** `Action.display_update`. */
  function DisplayUpdate(a: ActionRow, lang: Lang): (r: string)
    ensures !a.isApproved ==> r == []
    ensures a.isApproved ==> r == Localized(lang, a.update, a.updateGa)
  {
    if !a.isApproved then [] else Localized(lang, a.update, a.updateGa)
  }

  /** `Action.display_small_description`. */
  function DisplaySmallDescription(a: ActionRow, lang: Lang): string {
    Localized(lang, a.smallDescription, a.smallDescriptionGa)
  }

  /** `Action.display_description`. */
  function DisplayDescription(a: ActionRow, lang: Lang): string {
    Localized(lang, a.description, a.descriptionGa)
  }

  /** `Objective.display_title`. */
  function ObjectiveDisplayTitle(o: Objective, lang: Lang): string {
    Localized(lang, o.title, o.titleGa)
  }

  /** `Objective.display_description`. */
  function ObjectiveDisplayDescription(o: Objective, lang: Lang): string {
    Localized(lang, o.description, o.descriptionGa)
  }

  /** Unapproved progress text never shows, in any language; approved text
      shows one of the two stored texts, and a blank update in both
      languages shows as blank. */
  lemma DisplayUpdateNeverLeaks(a: ActionRow, lang: Lang)
    ensures !a.isApproved ==> DisplayUpdate(a, lang) == []
    ensures DisplayUpdate(a, lang) == [] || DisplayUpdate(a, lang) == a.update || DisplayUpdate(a, lang) == a.updateGa
    ensures a.update == [] && a.updateGa == [] ==> DisplayUpdate(a, lang) == []
  {
  }

  /** The result is the Irish text exactly when Irish was asked for and
      there is Irish text to show (or the two texts coincide). */
  lemma LocalizedIrishIff(lang: Lang, en: string, ga: string)
    requires en != ga
    ensures Localized(lang, en, ga) == ga <==> lang == Irish && ga != []
    ensures Localized(lang, en, ga) == en <==> !(lang == Irish && ga != [])
  {
  }

  /** The cases of `ActionDisplayUpdateTests` and `ObjectiveDisplayTests`. */
  lemma DisplayScenarios(a: ActionRow, o: Objective)
    ensures DisplayUpdate(a.(update := "Visible update", isApproved := false), English) == ""
    ensures DisplayUpdate(a.(update := "English update", updateGa := "Irish update", isApproved := true), Irish) == "Irish update"
    ensures DisplayUpdate(a.(update := "English update", updateGa := "", isApproved := true), Irish) == "English update"
    ensures DisplayUpdate(a.(update := "", updateGa := "", isApproved := true), English) == ""
    ensures DisplaySmallDescription(a.(smallDescription := "Small EN", smallDescriptionGa := "Small GA"), Irish) == "Small GA"
    ensures DisplaySmallDescription(a.(smallDescription := "Small EN", smallDescriptionGa := "Small GA"), English) == "Small EN"
    ensures DisplayDescription(a.(description := "Desc EN", descriptionGa := "Desc GA"), Irish) == "Desc GA"
    ensures ObjectiveDisplayTitle(o.(title := "Objective EN", titleGa := "Objective GA"), Irish) == "Objective GA"
    ensures ObjectiveDisplayTitle(o.(title := "Objective EN", titleGa := "Objective GA"), English) == "Objective EN"
    ensures ObjectiveDisplayDescription(o.(description := "Desc EN", descriptionGa := "Desc GA"), Irish) == "Desc GA"
  {
  }
}
