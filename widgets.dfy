/** The filter widgets of src/components/filterOnHoverOrClick.tsx (`DateFilter`,
    `NumberFilter`, `StringFilter`, `CategoryFilter`): the state each one keeps and
    the criterion it sends to the data sheet whenever that state changes. */
module FilterWidgets {
  import opened Table
  import opened Seqs
  import opened Criteria

  // ---------------------------------------------------------------------------
  // Operator widgets (date, number, text)

  datatype WidgetKind = DateWidget | NumberWidget | StringWidget

  /** The operator a widget starts with and returns to on "Clear Filter". */
  function DefaultOperator(kind: WidgetKind): (op: string)
    ensures op in Operators(kind) && !IsNullaryKind(op)
  {
    if kind == StringWidget then "contains" else "equals"
  }

  /** The options of the widget's operator dropdown. */
  function Operators(kind: WidgetKind): seq<string> {
    match kind
    case DateWidget => ["equals", "not equals", "after", "before", "empty", "not empty"]
    case NumberWidget => ["equals", "not equals", "greater than", "less than", "empty", "not empty"]
    case StringWidget => ["contains", "not contains", "equals", "not equals", "starts with", "ends with", "empty", "not empty"]
  }

  /** Every dropdown ends with the two operators that take no operand, and only those do. */
  lemma NullaryOperators(kind: WidgetKind)
    ensures "empty" in Operators(kind) && "not empty" in Operators(kind)
    ensures forall i :: 0 <= i < |Operators(kind)| - 2 ==> !IsNullaryKind(Operators(kind)[i])
  {
  }

  /** `isValueRequired`: the operand input is enabled. */
  predicate IsValueRequired(op: string) {
    !IsNullaryKind(op)
  }

  /** The criterion an operator widget sends: the operator with the entered text, where
      an operator without operand and an empty text both send null. */
  function Emit(op: string, text: string): (c: Criterion)
    ensures c.kind == op
    ensures IsNullaryKind(op) ==> c.value == NoValue
    ensures IsValueRequired(op) ==> c.value == (if text == "" then NoValue else Single(text))
    ensures IsCleared(c) <==> IsValueRequired(op) && text == ""
    ensures IsActive(c) <==> !IsCleared(c)
  {
    Criterion(op, if IsValueRequired(op) && text != "" then Single(text) else NoValue)
  }

  /** One operator widget: the chosen operator (`filterType`) and the entered text
      (`dateValue`, `numberValue` or `stringValue`). */
  class OperatorFilter {
    const kind: WidgetKind
    var filterType: string
    var value: string

    /** Mounting with the `initialType`/`initialValue` props; an absent prop takes its default. */
    constructor (kind: WidgetKind, initialType: Option<string>, initialValue: Option<string>)
      ensures this.kind == kind
      ensures filterType == if initialType.Some? then initialType.value else DefaultOperator(kind)
      ensures value == if initialValue.Some? then initialValue.value else ""
      ensures initialType == None && initialValue == None ==> IsCleared(Emitted())
    {
      this.kind := kind;
      filterType := if initialType.Some? then initialType.value else DefaultOperator(kind);
      value := if initialValue.Some? then initialValue.value else "";
    }

    /** The criterion the widget's effect sends for its current state. */
    function Emitted(): Criterion
      reads this
    {
      Emit(filterType, value)
    }

    /** Picking an operator from the dropdown also empties the text, so the
        criterion sent next carries no value. */
    method SetOperator(op: string)
      requires op in Operators(kind)
      modifies this
      ensures filterType == op && value == ""
      ensures Emitted() == Criterion(op, NoValue)
    {
      filterType := op;
      value := "";
    }

    /** Typing into the operand input, which is disabled for an operator without operand. */
    method SetValue(text: string)
      requires IsValueRequired(filterType)
      modifies this
      ensures value == text && filterType == old(filterType)
      ensures Emitted() == Criterion(filterType, if text == "" then NoValue else Single(text))
    {
      value := text;
    }

    /** "Clear Filter": back to the default operator and no text, which the data sheet
        reads as a removal of the column's criterion. */
    method Clear()
      modifies this
      ensures filterType == DefaultOperator(kind) && value == ""
      ensures IsCleared(Emitted())
    {
      filterType := DefaultOperator(kind);
      value := "";
    }
  }

  // ---------------------------------------------------------------------------
  // Category widget

  /** `handleToggleCategory`: remove a selected category, append an unselected one. */
  function Toggled(prev: seq<string>, category: string): (r: seq<string>)
    ensures category !in prev ==> r == prev + [category]
    ensures category in prev ==> category !in r && IsSubsequence(r, prev)
    ensures forall x :: x != category ==> (x in r <==> x in prev)
  {
    if category in prev then
      var keep := (c: string) => c != category;
      FilterIsSubsequence(prev, keep);
      Filter(prev, keep)
    else
      prev + [category]
  }

  /** Toggling an unselected category twice gives back the selection. */
  lemma ToggleTwiceRestores(prev: seq<string>, category: string)
    requires category !in prev
    ensures Toggled(Toggled(prev, category), category) == prev
  {
    var keep := (c: string) => c != category;
    FilterSnoc(prev, category, keep);
    FilterKeepsAll(prev, keep);
  }

  /** Toggling keeps a repeat-free selection repeat-free. */
  lemma ToggleKeepsNoDuplicates(prev: seq<string>, category: string)
    requires NoDuplicates(prev)
    ensures NoDuplicates(Toggled(prev, category))
  {
    if category in prev {
      SubsequenceNoDuplicates(Toggled(prev, category), prev);
    }
  }

  /** The criterion the category widget sends: always operator "in", with the selection,
      or null when nothing is selected. */
  function EmitSelection(selected: seq<string>): (c: Criterion)
    ensures c.kind == "in"
    ensures IsCleared(c) <==> selected == []
    ensures IsActive(c) <==> selected != []
    ensures selected != [] ==> c.value == Many(selected)
  {
    Criterion("in", if |selected| > 0 then Many(selected) else NoValue)
  }

  /** The multi-select widget: the offered categories and the selected ones. */
  class CategoryFilter {
    const categories: seq<string>
    var selected: seq<string>

    /** Every selected category is offered and none is selected twice. */
    ghost predicate Valid()
      reads this
    {
      NoDuplicates(selected) && forall x :: x in selected ==> x in categories
    }

    constructor (categories: seq<string>)
      ensures Valid()
      ensures this.categories == categories && selected == []
      ensures IsCleared(Emitted())
    {
      this.categories := categories;
      selected := [];
    }

    function Emitted(): Criterion
      reads this
    {
      EmitSelection(selected)
    }

    /** Ticking or unticking the checkbox of an offered category flips whether it is selected. */
    method Toggle(category: string)
      requires Valid() && category in categories
      modifies this
      ensures Valid()
      ensures selected == Toggled(old(selected), category)
      ensures category in selected <==> category !in old(selected)
    {
      ToggleKeepsNoDuplicates(selected, category);
      selected := Toggled(selected, category);
    }

    /** "Clear Filter": nothing selected, which the data sheet reads as a removal. */
    method Clear()
      requires Valid()
      modifies this
      ensures Valid()
      ensures selected == [] && IsCleared(Emitted())
    {
      selected := [];
    }
  }
}
