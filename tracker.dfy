/** The tracker component's state machine: the five pieces of state, the
    actions that change them, and the values every render derives from them. */
module CalorieTracker {
  import opened CalorieLedger

  /** The caloric limit a fresh tracker starts with. */
  const DEFAULT_LIMIT: int := 2000

  class Tracker {
    /** The logged entries, oldest first. */
    var entries: seq<Entry>
    /** The page of the table being shown (`current7EntryWindowIndex`). */
    var page: nat
    /** The entry the edit form targets (`currentEntryIndex`). */
    var cursor: nat
    /** The value typed into the edit form, not yet applied. */
    var editing: int
    /** The caloric limit every entry is compared with. */
    var limit: int

    /** The store is never empty, the cursor names an entry, and the page is
        one the Next button can reach. */
    ghost predicate Valid()
      reads this
    {
      |entries| >= 1 && cursor < |entries| && page < PageCount(|entries|)
    }

    /** The edit form's entry is on the page shown. */
    ghost predicate CursorShown()
      reads this
    {
      page == cursor / PAGE_SIZE &&
      cursor % PAGE_SIZE < |VisibleWindow()| &&
      VisibleWindow()[cursor % PAGE_SIZE] == entries[cursor]
    }

    /** The rows of the table: up to seven, as many as remain from the entry
        that starts the current page, taken in order. */
    function VisibleWindow(): (w: seq<Entry>)
      reads this
      ensures |w| == Min(PAGE_SIZE, Max(0, |entries| - page * PAGE_SIZE))
      ensures forall i :: 0 <= i < |w| ==>
                page * PAGE_SIZE + i < |entries| && w[i] == entries[page * PAGE_SIZE + i]
    {
      Window(entries, page)
    }

    /** The total under the table: the visible window's caloric status,
        computed from the current limit. It is the rows' total intake minus
        one limit per row. */
    function VisibleStatus(): (status: int)
      reads this
      ensures status == Sum(CaloriesOf(VisibleWindow())) - |VisibleWindow()| * limit
    {
      WindowStatusIsTotalMinusLimits(VisibleWindow(), limit);
      WindowStatus(VisibleWindow(), limit)
    }

    /** One zero-calorie entry, the first page, the default limit. */
    constructor ()
      ensures Valid()
      ensures entries == [Entry(0)] && page == 0 && cursor == 0
      ensures editing == 0 && limit == DEFAULT_LIMIT
    {
      entries := [Entry(0)];
      page := 0;
      cursor := 0;
      editing := 0;
      limit := DEFAULT_LIMIT;
    }

    /** `addNewEntry`: append a zero entry, select it, clear the edit form and
        turn to the page that shows it. */
    method AddNewEntry()
      requires Valid()
      modifies this
      ensures Valid() && CursorShown()
      ensures entries == old(entries) + [Entry(0)]
      ensures cursor == |old(entries)| && editing == 0
      ensures page == |old(entries)| / PAGE_SIZE
      ensures limit == old(limit)
      ensures DeficitCount(entries, limit)
           == old(DeficitCount(entries, limit)) + (if InDeficit(Entry(0), limit) then 1 else 0)
    {
      CountsAppend(entries, Entry(0), limit);
      var newIndex := |entries|;
      entries := entries + [Entry(0)];
      cursor := newIndex;
      editing := 0;
      page := newIndex / PAGE_SIZE;
      EntryOnItsPage(entries, cursor);
    }

    /** `applyCaloricChange`: write the staged value into the selected entry.
        Only that entry changes, and the deficit count moves by that entry
        alone. */
    method ApplyCaloricChange()
      requires Valid()
      modifies this`entries
      ensures Valid()
      ensures entries == old(entries)[cursor := Entry(editing)]
      ensures DeficitCount(entries, limit)
           == old(DeficitCount(entries, limit))
              - (if InDeficit(old(entries[cursor]), limit) then 1 else 0)
              + (if InDeficit(Entry(editing), limit) then 1 else 0)
    {
      var updated := entries[cursor := Entry(editing)];
      DeficitCountUpdate(entries, cursor, Entry(editing), limit);
      entries := updated;
    }

    /** `changeCurrentEntry(direction)`: step the cursor by one, stage the
        target's value and turn to its page. The buttons offer -1 only off the
        first entry and +1 only off the last. */
    method ChangeCurrentEntry(direction: int)
      requires Valid()
      requires direction == -1 || direction == 1
      requires direction == -1 ==> cursor != 0
      requires direction == 1 ==> cursor != |entries| - 1
      modifies this`cursor, this`editing, this`page
      ensures Valid() && CursorShown()
      ensures cursor == old(cursor) + direction
      ensures editing == entries[cursor].calories
      ensures page == cursor / PAGE_SIZE
    {
      var newIndex := cursor + direction;
      cursor := newIndex;
      editing := entries[newIndex].calories;
      page := newIndex / PAGE_SIZE;
      EntryOnItsPage(entries, cursor);
    }

    /** The Previous button, disabled on page 0. */
    method PreviousPage()
      requires Valid()
      requires page != 0
      modifies this`page
      ensures Valid()
      ensures page == old(page) - 1
    {
      page := page - 1;
    }

    /** The Next button, disabled on page `sevenEntryWindowCount - 1`. */
    method NextPage()
      requires Valid()
      requires page != PageCount(|entries|) - 1
      modifies this`page
      ensures Valid()
      ensures page == old(page) + 1
    {
      page := page + 1;
    }

    /** Typing into the edit form stages the parsed value. */
    method EditValue(value: int)
      requires Valid()
      modifies this`editing
      ensures Valid()
      ensures editing == value
    {
      editing := value;
    }

    /** Typing into the limit field sets the parsed value. */
    method SetCaloricLimit(value: int)
      requires Valid()
      modifies this`limit
      ensures Valid()
      ensures limit == value
    {
      limit := value;
    }

    /** The global count loop over every entry, whatever the page or cursor:
        an entry at or under the limit is in deficit, any other in surplus. */
    method Tally() returns (inDeficit: nat, inSurplus: nat)
      ensures inDeficit == DeficitCount(entries, limit)
      ensures inSurplus == SurplusCount(entries, limit)
      ensures inDeficit + inSurplus == |entries|
    {
      inDeficit, inSurplus := 0, 0;
      for i := 0 to |entries|
        invariant inDeficit == DeficitCount(entries[..i], limit)
        invariant inSurplus == SurplusCount(entries[..i], limit)
      {
        assert entries[..i + 1][..i] == entries[..i];
        if entries[i].calories <= limit {
          inDeficit := inDeficit + 1;
        } else {
          inSurplus := inSurplus + 1;
        }
      }
      assert entries[..|entries|] == entries;
      CountsPartition(entries, limit);
    }
  }

  /** Start with one empty entry and the limit 2000, add an entry and apply
      2500 to it: one entry in each count, and the page shows a deficit of
      1500. */
  method ScenarioAddAndApply()
  {
    var t := new Tracker();
    t.AddNewEntry();
    t.EditValue(2500);
    t.ApplyCaloricChange();
    assert t.entries == [Entry(0), Entry(2500)];
    var inDeficit, inSurplus := t.Tally();
    assert [Entry(0), Entry(2500)][..1] == [Entry(0)];
    assert inDeficit == 1 && inSurplus == 1;
    assert t.VisibleWindow() == [Entry(0), Entry(2500)];
    assert RowMarkOf(2500, t.limit) == AtOrAbove(500);
    var w := t.VisibleWindow();
    assert CaloriesOf(w) == [0, 2500];
    assert Sum([0, 2500]) == 2500 by {
      assert [0, 2500][..1] == [0];
      assert [0][..0] == [];
    }
    assert t.VisibleStatus() == 2500 - 2 * 2000;
  }
}
