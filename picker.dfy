/**
 * The BindablePicker selection adapter. The picker's flat entry list (Items),
 * its native SelectedIndex, the bound ItemsSource and the bound SelectedItem
 * are fields; each property-changed callback and the selection-changed handler
 * is a method. A property write is followed at once by the callback
 * registered for that property, and a write to SelectedIndex raises
 * SelectedIndexChanged, whose only handler is OnSelectionChanged.
 */
module Picker {
  import opened Wrappers
  import opened Lists
  import opened Display
  import opened Deltas

  /** How a callback ended: normally, or with a NullReferenceException escaping to the writer. */
  datatype Outcome = Completed | ThrewNullReference

  /** What OnSelectionChanged did to SelectedItem. */
  datatype SelectionOutcome = ItemUnchanged | ItemWritten | SelectionThrew

  /**
   * The IList bound as ItemsSource: a list owned by someone else, shared by
   * reference; notifies says whether it implements INotifyCollectionChanged.
   */
  class SourceList<T> {
    var elems: seq<Option<T>>
    const notifies: bool

    constructor (elems: seq<Option<T>>, notifies: bool)
      ensures this.elems == elems && this.notifies == notifies
    {
      this.elems := elems;
      this.notifies := notifies;
    }
  }

  class BindablePicker<T(==)> {
    /** ToString() and the runtime fields of the element type. */
    const info: TypeInfo<T>
    /** Picker.Items: the displayed entries (an entry may be null). */
    var items: seq<Option<string>>
    /** Picker.SelectedIndex, the native selection. */
    var selectedIndex: int
    var itemsSource: SourceList?<T>
    var displayMemberBinding: string
    var selectedItem: Option<T>
    /** One entry per collection-changed handler attached so far; none is ever detached. */
    var subscriptions: seq<SourceList<T>>

    constructor (info: TypeInfo<T>)
      ensures this.info == info
      ensures items == [] && selectedIndex == -1 && itemsSource == null
      ensures displayMemberBinding == "" && selectedItem == None && subscriptions == []
    {
      this.info := info;
      items := [];
      selectedIndex := -1;
      itemsSource := null;
      displayMemberBinding := "";
      selectedItem := None;
      subscriptions := [];
    }

    /** The entries show the whole of ItemsSource, position by position. */
    ghost predicate InSync()
      reads this, itemsSource
    {
      itemsSource != null && Corresponds(info, displayMemberBinding, items, itemsSource.elems)
    }

    /** DisplayMemberBinding has no property-changed callback: writing it rebuilds nothing. */
    method SetDisplayMemberBinding(member: string)
      modifies this`displayMemberBinding
      ensures displayMemberBinding == member
    {
      displayMemberBinding := member;
    }

    /**
     * Writing ItemsSource and its callback. A notifying list gets one more
     * handler. A null list leaves the entries and the selection as they are.
     * Otherwise the entries are cleared and rebuilt from the list; a
     * NullReferenceException stops the rebuild at the first element that
     * cannot be projected, leaving the entries built so far.
     */
    method SetItemsSource(newValue: SourceList?<T>) returns (outcome: Outcome)
      modifies this`itemsSource, this`subscriptions, this`items
      ensures itemsSource == newValue
      ensures subscriptions == old(subscriptions) + (if newValue != null && newValue.notifies then [newValue] else [])
      ensures newValue == null ==> items == old(items) && outcome == Completed
      ensures newValue != null ==> ProjectsPrefix(info, displayMemberBinding, items, newValue.elems)
      ensures newValue != null ==> (outcome == Completed <==> InSync())
      ensures newValue != null ==>
        (outcome == Completed <==>
         forall j :: 0 <= j < |newValue.elems| ==> Project(info, displayMemberBinding, newValue.elems[j]).Ok?)
      ensures newValue != null && outcome == ThrewNullReference ==>
        |items| < |newValue.elems| && Project(info, displayMemberBinding, newValue.elems[|items|]).NullReference?
    {
      itemsSource := newValue;
      if newValue != null && newValue.notifies {
        subscriptions := subscriptions + [newValue];
      }
      if newValue == null {
        return Completed;
      }
      outcome := RebuildItems(newValue.elems);
    }

    /**
     * Clears the entries and adds the projection of each element in order;
     * a NullReferenceException stops at the first element that cannot be
     * projected, leaving the entries built so far.
     */
    method RebuildItems(elems: seq<Option<T>>) returns (outcome: Outcome)
      modifies this`items
      ensures ProjectsPrefix(info, displayMemberBinding, items, elems)
      ensures outcome == Completed <==> |items| == |elems|
      ensures outcome == ThrewNullReference ==>
        |items| < |elems| && Project(info, displayMemberBinding, elems[|items|]).NullReference?
    {
      items := [];
      var i := 0;
      if IsNullOrWhiteSpace(displayMemberBinding) {
        while i < |elems|
          invariant 0 <= i <= |elems| && |items| == i
          invariant ProjectsPrefix(info, displayMemberBinding, items, elems)
        {
          items := items + [DefaultText(info, elems[i])];
          i := i + 1;
        }
      } else {
        while i < |elems|
          invariant 0 <= i <= |elems| && |items| == i
          invariant ProjectsPrefix(info, displayMemberBinding, items, elems)
        {
          var item := elems[i];
          if item.None? {
            // item.GetType() on a null element
            return ThrewNullReference;
          }
          var text := LookupMember(info.fields(item.value), displayMemberBinding);
          if text.NullReference? {
            return ThrewNullReference;
          }
          items := items + [Some(text.value)];
          i := i + 1;
        }
      }
      outcome := Completed;
    }

    /** The collection-changed handler: appends the added items' texts, then removes each removed item's text. */
    method CollectionChangedHandler(newItems: Option<seq<Option<T>>>, oldItems: Option<seq<Option<T>>>)
      modifies this`items
      ensures items == ApplyDelta(info, old(items), newItems, oldItems)
    {
      if newItems.Some? {
        AppendNewItems(newItems.value);
      }
      if oldItems.Some? {
        RemoveOldItems(oldItems.value);
      }
    }

    /** The handler's loop over NewItems: each item's text is added at the end. */
    method AppendNewItems(news: seq<Option<T>>)
      modifies this`items
      ensures items == old(items) + DeltaEntries(info, news)
    {
      var i := 0;
      while i < |news|
        invariant 0 <= i <= |news|
        invariant items == old(items) + DeltaEntries(info, news[..i])
      {
        assert news[..i + 1][..i] == news[..i];
        items := items + [Some(DeltaText(info, news[i]))];
        i := i + 1;
      }
      assert news[..i] == news;
    }

    /** The handler's loop over OldItems: each item's text is removed once. */
    method RemoveOldItems(olds: seq<Option<T>>)
      modifies this`items
      ensures items == RemoveEach(old(items), DeltaEntries(info, olds))
    {
      var i := 0;
      while i < |olds|
        invariant 0 <= i <= |olds|
        invariant items == RemoveEach(old(items), DeltaEntries(info, olds[..i]))
      {
        assert olds[..i + 1][..i] == olds[..i];
        items := RemoveFirst(items, Some(DeltaText(info, olds[i])));
        i := i + 1;
      }
      assert olds[..i] == olds;
    }

    /**
     * sender raises CollectionChanged: every handler this picker attached to
     * sender runs once, whether or not sender is still the ItemsSource.
     */
    method RaiseCollectionChanged(sender: SourceList<T>, newItems: Option<seq<Option<T>>>,
                                  oldItems: Option<seq<Option<T>>>)
      modifies this`items
      ensures items == ApplyDeltaTimes(info, old(items), multiset(subscriptions)[sender], newItems, oldItems)
    {
      var k := 0;
      while k < |subscriptions|
        invariant 0 <= k <= |subscriptions|
        invariant items == ApplyDeltaTimes(info, old(items), multiset(subscriptions[..k])[sender], newItems, oldItems)
      {
        assert subscriptions[..k + 1] == subscriptions[..k] + [subscriptions[k]];
        assert multiset(subscriptions[..k + 1]) == multiset(subscriptions[..k]) + multiset{subscriptions[k]};
        if subscriptions[k] == sender {
          CollectionChangedHandler(newItems, oldItems);
        }
        k := k + 1;
      }
      assert subscriptions[..k] == subscriptions;
    }

    /**
     * The SelectedItem callback. With no ItemsSource it does nothing;
     * otherwise SelectedIndex becomes the first position of SelectedItem in
     * the list (-1 when absent), and is written only when that differs.
     */
    method OnSelectedItemPropertyChanged() returns (wroteIndex: bool)
      modifies this`selectedIndex
      ensures itemsSource == null ==> !wroteIndex && selectedIndex == old(selectedIndex)
      ensures itemsSource != null ==>
        selectedIndex == IndexOf(itemsSource.elems, selectedItem) && (wroteIndex <==> old(selectedIndex) != selectedIndex)
    {
      wroteIndex := false;
      if itemsSource == null {
        return;
      }
      var index := IndexOf(itemsSource.elems, selectedItem);
      if selectedIndex == index {
        return;
      }
      selectedIndex := index;
      wroteIndex := true;
    }

    /**
     * The SelectedIndexChanged handler. An index outside the entries clears
     * SelectedItem; otherwise a scan of ItemsSource up to the index sets
     * SelectedItem to the element there, and leaves it alone when the list is
     * shorter than the entries. With no ItemsSource the scan throws.
     */
    method OnSelectionChanged() returns (outcome: SelectionOutcome)
      modifies this`selectedItem
      ensures selectedIndex < 0 || selectedIndex > |items| - 1 ==> outcome == ItemWritten && selectedItem == None
      ensures 0 <= selectedIndex < |items| && itemsSource == null ==>
        outcome == SelectionThrew && selectedItem == old(selectedItem)
      ensures 0 <= selectedIndex < |items| && itemsSource != null && selectedIndex < |itemsSource.elems| ==>
        outcome == ItemWritten && selectedItem == itemsSource.elems[selectedIndex]
      ensures 0 <= selectedIndex < |items| && itemsSource != null && selectedIndex >= |itemsSource.elems| ==>
        outcome == ItemUnchanged && selectedItem == old(selectedItem)
    {
      if selectedIndex < 0 || selectedIndex > |items| - 1 {
        selectedItem := None;
        return ItemWritten;
      }
      if itemsSource == null {
        // foreach over a null ItemsSource
        return SelectionThrew;
      }
      var elems := itemsSource.elems;
      var count := 0;
      while count < |elems|
        invariant 0 <= count <= |elems| && count <= selectedIndex
        invariant selectedItem == old(selectedItem)
      {
        if count == selectedIndex {
          selectedItem := elems[count];
          return ItemWritten;
        }
        count := count + 1;
      }
      outcome := ItemUnchanged;
    }

    /**
     * Writing SelectedItem = v and every callback that write sets off. The
     * SelectedItem callback is entered at most three times; the chain also
     * ends as soon as a callback writes nothing or OnSelectionChanged throws.
     * When v's first position (-1 when absent) already equals SelectedIndex,
     * the equality guard stops the chain at once and v stays selected. When v
     * sits in the list at a position the entries cover, v stays selected at
     * its first position. Otherwise the selection ends up null.
     */
    method SetSelectedItem(v: Option<T>)
      modifies this`selectedItem, this`selectedIndex
      ensures itemsSource == null ==> selectedItem == v && selectedIndex == old(selectedIndex)
      ensures itemsSource != null ==>
        var i := IndexOf(itemsSource.elems, v);
        if i == old(selectedIndex) || 0 <= i < |items| then selectedItem == v && selectedIndex == i
        else selectedItem == None && selectedIndex == IndexOf(itemsSource.elems, None)
      ensures itemsSource != null ==> selectedIndex == IndexOf(itemsSource.elems, selectedItem)
    {
      selectedItem := v;
      var wrote := OnSelectedItemPropertyChanged();
      if wrote {
        var changed := OnSelectionChanged();
        if changed == ItemWritten {
          wrote := OnSelectedItemPropertyChanged();
          if wrote {
            changed := OnSelectionChanged();
            if changed == ItemWritten {
              wrote := OnSelectedItemPropertyChanged();
              assert !wrote;
            }
          }
        }
      }
    }

    /**
     * The native SelectedIndex changing to i (the user picks an entry), and
     * every callback that sets off. Picking an element that also occurs
     * earlier in the list moves the selection to the earlier position, as
     * every write here fires its callback; the framework would skip the
     * SelectedItem write, and so the move, when the picked element equals
     * the current SelectedItem.
     */
    method SetSelectedIndex(i: int) returns (outcome: SelectionOutcome)
      modifies this`selectedItem, this`selectedIndex
      ensures (i < 0 || i >= |items|) ==> selectedItem == None && outcome == ItemWritten
      ensures (i < 0 || i >= |items|) && itemsSource == null ==> selectedIndex == i
      ensures (i < 0 || i >= |items|) && itemsSource != null ==> selectedIndex == IndexOf(itemsSource.elems, None)
      ensures 0 <= i < |items| && itemsSource == null ==>
        outcome == SelectionThrew && selectedItem == old(selectedItem) && selectedIndex == i
      ensures 0 <= i < |items| && itemsSource != null && i < |itemsSource.elems| ==>
        outcome == ItemWritten && selectedItem == itemsSource.elems[i] &&
        selectedIndex == IndexOf(itemsSource.elems, itemsSource.elems[i])
      ensures 0 <= i < |items| && itemsSource != null && i >= |itemsSource.elems| ==>
        outcome == ItemUnchanged && selectedItem == old(selectedItem) && selectedIndex == i
    {
      selectedIndex := i;
      outcome := OnSelectionChanged();
      if outcome == ItemWritten {
        var wrote := OnSelectedItemPropertyChanged();
        if wrote {
          var changed := OnSelectionChanged();
          if changed == ItemWritten {
            wrote := OnSelectedItemPropertyChanged();
            assert !wrote;
          }
        }
      }
    }
  }
}
