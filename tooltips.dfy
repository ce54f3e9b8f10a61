/** src/components/filterToolTips.tsx repeats the four widgets of
    src/components/filterOnHoverOrClick.tsx line for line (props, operator lists, emitted
    criterion, clear and toggle), so its operator widgets are the `FilterWidgets.OperatorFilter`
    class. What differs is the category widget, whose options are a fixed list instead of
    values taken from the column. */
module ToolTipFilters {
  import opened Criteria
  import opened FilterWidgets

  /** `MOCK_CATEGORIES`. */
  const MockCategories: seq<string> := ["Sales", "Marketing", "Engineering", "HR", "Finance"]

  /** Mounting the tooltip category widget: the mock options, whatever the data, and no selection. */
  method NewCategoryFilter() returns (w: CategoryFilter)
    ensures fresh(w) && w.Valid()
    ensures w.categories == MockCategories && w.selected == []
    ensures IsCleared(w.Emitted())
  {
    w := new CategoryFilter(MockCategories);
  }
}
