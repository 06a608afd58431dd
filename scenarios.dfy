/**
 * Runs of the adapter against concrete lists: the named-member example, the
 * crash after ItemsSource is set back to null, a producer that only appends
 * (as the sample page's background task does), and a list bound twice.
 */
module Scenarios {
  import opened Wrappers
  import opened Lists
  import opened Display
  import opened Deltas
  import opened Picker

  datatype Person = Person(name: string)

  /** A Person has one runtime field, the compiler-generated backing field of its Name property. */
  function PersonInfo(): TypeInfo<Person>
  {
    TypeInfo((p: Person) => "Person", (p: Person) => [Field("<Name>k__BackingField", Some(p.name))])
  }

  lemma BackingFieldMatchesName()
    ensures Matches(Field("<Name>k__BackingField", None), "Name")
    ensures !IsNullOrWhiteSpace("Name")
  {
    assert "Name" <= "<Name>k__BackingField"[1..];
    assert !IsWhiteSpace("Name"[0]);
  }

  /** With DisplayMemberBinding "Name" a Person shows its name. */
  lemma PersonProjection(p: Person)
    ensures Project(PersonInfo(), "Name", Some(p)) == Ok(Some(p.name))
  {
    BackingFieldMatchesName();
    assert Matches(PersonInfo().fields(p)[0], "Name");
    assert MemberText(PersonInfo().fields(p), "Name") == Ok(p.name);
  }

  /** Binds [a, b] to a picker showing the Name member. */
  method BindPeople(picker: BindablePicker<Person>, list: SourceList<Person>, a: Person, b: Person)
    requires picker.info == PersonInfo() && list.elems == [Some(a), Some(b)]
    modifies picker
    ensures picker.info == PersonInfo() && picker.displayMemberBinding == "Name"
    ensures picker.selectedIndex == old(picker.selectedIndex) && picker.selectedItem == old(picker.selectedItem)
    ensures picker.itemsSource == list && picker.items == [Some(a.name), Some(b.name)]
  {
    picker.SetDisplayMemberBinding("Name");
    PersonProjection(a);
    PersonProjection(b);
    var outcome := picker.SetItemsSource(list);
    assert |picker.items| == 2 && picker.items[0] == Some(a.name) && picker.items[1] == Some(b.name);
  }

  /**
   * Binding [Alice, Bob] with DisplayMemberBinding "Name" shows their names;
   * picking entry 1 selects Bob; selecting Alice moves the index to 0.
   */
  method NamedMemberSelection() returns (entries: seq<Option<string>>, picked: Option<Person>, index: int)
    ensures entries == [Some("Alice"), Some("Bob")]
    ensures picked == Some(Person("Bob"))
    ensures index == 0
  {
    var alice, bob := Person("Alice"), Person("Bob");
    var picker := new BindablePicker(PersonInfo());
    var list := new SourceList([Some(alice), Some(bob)], true);
    BindPeople(picker, list, alice, bob);
    entries := picker.items;
    var selection := picker.SetSelectedIndex(1);
    picked := picker.selectedItem;
    assert IndexOf(list.elems, Some(alice)) == 0;
    picker.SetSelectedItem(Some(alice));
    index := picker.selectedIndex;
  }

  /**
   * Setting ItemsSource back to null keeps the old entries, so picking one of
   * them makes OnSelectionChanged walk a null list and throw.
   */
  method NullSourceThenPick() returns (entries: seq<Option<string>>, outcome: SelectionOutcome)
    ensures entries == [Some("Person")]
    ensures outcome == SelectionThrew
  {
    var picker := new BindablePicker(PersonInfo());
    var list := new SourceList([Some(Person("Alice"))], false);
    var rebuilt := picker.SetItemsSource(list);
    rebuilt := picker.SetItemsSource(null);
    entries := picker.items;
    outcome := picker.SetSelectedIndex(0);
  }

  /**
   * The owner appends x to a notifying list bound once, with a blank
   * binding, and raises CollectionChanged: the entries stay in step.
   */
  method AppendAndNotify<T(==)>(picker: BindablePicker<T>, list: SourceList<T>, x: T)
    requires picker.itemsSource == list && picker.InSync()
    requires IsNullOrWhiteSpace(picker.displayMemberBinding)
    requires multiset(picker.subscriptions)[list] == 1
    modifies list, picker`items
    ensures list.elems == old(list.elems) + [Some(x)]
    ensures picker.itemsSource == list && picker.items == old(picker.items) + [Some(picker.info.text(x))]
    ensures picker.InSync()
  {
    AddedDeltaKeepsCorrespondence(picker.info, picker.displayMemberBinding, picker.items, list.elems, [Some(x)]);
    list.elems := list.elems + [Some(x)];
    picker.RaiseCollectionChanged(list, Some([Some(x)]), None);
    assert DeltaEntries(picker.info, [Some(x)]) == [Some(picker.info.text(x))];
  }

  /**
   * Selecting an element of a list the entries show in full, and then
   * running the index-change handler, leaves that element selected at its
   * first position: the element at IndexOf(v) is v.
   */
  method SelectThenHandleIndexChange<T(==)>(picker: BindablePicker<T>, v: Option<T>) returns (outcome: SelectionOutcome)
    requires picker.InSync() && v in picker.itemsSource.elems
    modifies picker`selectedItem, picker`selectedIndex
    ensures outcome == ItemWritten
    ensures picker.selectedItem == v && picker.selectedIndex == IndexOf(picker.itemsSource.elems, v)
  {
    picker.SetSelectedItem(v);
    outcome := picker.OnSelectionChanged();
  }

  function Digits(n: int): string
  {
    if n == 1 then "1" else if n == 2 then "2" else "?"
  }

  function DigitsInfo(): TypeInfo<int>
  {
    TypeInfo(Digits, (n: int) => [])
  }

  /** Two handlers appending [2] to the entries ["1"]. */
  lemma DoubledAppend()
    ensures ApplyDeltaTimes(DigitsInfo(), [Some("1")], 2, Some([Some(2)]), None) == [Some("1"), Some("2"), Some("2")]
  {
    RepeatedAddGrowsByMultiple(DigitsInfo(), [Some("1")], 2, [Some(2)]);
    assert DeltaEntries(DigitsInfo(), [Some(2)]) == [Some("2")];
    assert Repeat([Some("2")], 2) == [Some("2"), Some("2")];
  }

  /** Binds list, then other, then list again, from a fresh picker. */
  method BindAwayAndBack(picker: BindablePicker<int>, list: SourceList<int>, other: SourceList<int>)
    requires picker.subscriptions == [] && list != other && list.notifies && !other.notifies
    requires list.elems == [Some(1)] && IsNullOrWhiteSpace(picker.displayMemberBinding)
    modifies picker
    ensures picker.items == [DefaultText(picker.info, Some(1))]
    ensures picker.itemsSource == list && picker.subscriptions == [list, list]
  {
    var rebuilt := picker.SetItemsSource(list);
    rebuilt := picker.SetItemsSource(other);
    rebuilt := picker.SetItemsSource(list);
    assert |picker.items| == 1 && picker.items[0] == DefaultText(picker.info, Some(1));
  }

  /**
   * Binding a notifying list, then another list, then the first again
   * leaves two handlers on the first list, so one appended item shows twice.
   */
  method RebindTwiceThenAppend() returns (entries: seq<Option<string>>)
    ensures entries == [Some("1"), Some("2"), Some("2")]
  {
    var picker := new BindablePicker(DigitsInfo());
    var list := new SourceList([Some(1)], true);
    var other := new SourceList([], false);
    BindAwayAndBack(picker, list, other);
    assert multiset(picker.subscriptions)[list] == 2;
    list.elems := list.elems + [Some(2)];
    picker.RaiseCollectionChanged(list, Some([Some(2)]), None);
    DoubledAppend();
    entries := picker.items;
  }
}
