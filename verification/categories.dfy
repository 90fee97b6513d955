/** The fixed category table shared by the filter sidebar and the submission form. */
module Categories {

  /** One configured category: its name, stored in each fact, and its display colour. */
  datatype Category = Category(name: string, color: string)

  /** The eight categories, in the order the sidebar and the form's selector list them. */
  const CATEGORIES: seq<Category> := [
    Category("technology", "#3b82f6"),
    Category("science", "#16a34a"),
    Category("finance", "#ef4444"),
    Category("society", "#eab308"),
    Category("entertainment", "#db2777"),
    Category("health", "#14b8a6"),
    Category("history", "#f97316"),
    Category("news", "#8b5cf6")
  ]

  /** The filter value meaning "no category filter". */
  const ALL: string := "all"

  /** The form selector's placeholder option, "Choose category:". */
  const NO_CATEGORY: string := ""

  predicate IsCategoryName(s: string)
  {
    exists i :: 0 <= i < |CATEGORIES| && CATEGORIES[i].name == s
  }

  /** A value the filter can hold: the sentinel or one of the category names. */
  predicate IsFilter(s: string)
  {
    s == ALL || IsCategoryName(s)
  }

  /** A value the form's category selector can hold: the placeholder or one of the names. */
  predicate IsFormCategory(s: string)
  {
    s == NO_CATEGORY || IsCategoryName(s)
  }

  /** The table has eight entries with pairwise distinct names, and neither the
      filter sentinel nor the selector placeholder is a category name, so each
      button and each option stands for exactly one value. */
  lemma CategoryTableWellFormed()
    ensures |CATEGORIES| == 8
    ensures forall i, j :: 0 <= i < j < |CATEGORIES| ==> CATEGORIES[i].name != CATEGORIES[j].name
    ensures !IsCategoryName(ALL) && !IsCategoryName(NO_CATEGORY)
  {
  }
}
