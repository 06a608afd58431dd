# BindablePicker selection adapter, modelled in Dafny

`BindablePicker` is a Xamarin.Forms `Picker` that adds three bindable properties:
`ItemsSource` (a bound `IList`), `DisplayMemberBinding` (a field name) and `SelectedItem`.
It keeps three things consistent: the picker's flat list of display strings (`Items`),
the picker's native `SelectedIndex`, and the bound `SelectedItem`. This model covers its
four triggers:

- **Writing `ItemsSource`** (`Picker.BindablePicker.SetItemsSource`, `RebuildItems`). If the
  new list notifies, one more collection-changed handler is attached to it. A null list changes
  nothing else. Any other list clears `Items` and rebuilds it:
  - with a blank binding, each element's `ToString()` is shown, and a null element gives a null entry;
  - with a non-blank binding, the element's runtime fields are scanned, and the last field whose
    name contains the binding supplies the text (`""` when none matches).
  
  A null element, or a matching field that holds null, raises a `NullReferenceException`. The
  rebuild then stops with the entries built so far.
- **Collection-changed deltas** (`CollectionChangedHandler`, `RaiseCollectionChanged`). Added
  items are appended as `(item ?? "").ToString()`, whatever position is reported. Each removed
  item deletes the first entry equal to its text. A delta runs once for every handler attached to
  the collection that raised it.
- **Writing `SelectedItem`** (`OnSelectedItemPropertyChanged`). `SelectedIndex` becomes the
  first position of the item in `ItemsSource`, or -1. It is written only when that differs from
  the current index.
- **A native index change** (`OnSelectionChanged`). An index outside `Items` clears
  `SelectedItem`. Otherwise a counting scan of `ItemsSource` sets `SelectedItem` to the element at
  the index. The scan leaves `SelectedItem` alone when the list is shorter than `Items`, and
  throws when `ItemsSource` is null.

`SetSelectedItem` and `SetSelectedIndex` model the chain of callbacks a single write sets off.
They rely on one assumption about Xamarin.Forms: every property write runs its
property-changed callback synchronously, and every `SelectedIndex` write raises
`SelectedIndexChanged`. Both methods prove that the chain stops after at most three entries
into `OnSelectedItemPropertyChanged`. It stops at its equality guard, or earlier when
`OnSelectionChanged` writes nothing or throws, or when there is no source. They also give the
final selection.

Reflection is replaced by a `TypeInfo<T>` value. It gives each element's `ToString()` and its
runtime fields in declaration order (name, and the field value's string form or null). C# null is
`None` in `Option`.

The model keeps the source's quirks, and lemmas exhibit them:

- The delta handler ignores `DisplayMemberBinding` (`Deltas.AddedDeltaIgnoresDisplayMember`).
- An added null element becomes `""`, where a rebuild gives null (`Deltas.AddedNullBreaksCorrespondence`).
- Removal matches by text, so it can delete another element's entry (`Deltas.DuplicateTextRemovesEarlierEntry`).
- Handlers are never detached, so a list bound twice applies each delta twice
  (`Deltas.RepeatedAddGrowsByMultiple`, `Scenarios.RebindTwiceThenAppend`).
- Setting `ItemsSource` to null keeps the old entries, so picking one afterwards throws
  (`Scenarios.NullSourceThenPick`).
- Picking an element that also occurs earlier moves the selection to the earlier position
  (`SetSelectedIndex`). This relies on the assumption above that every write fires its
  callback. The framework skips a write equal to the current value, so the move does not
  happen when the picked element equals the current `SelectedItem`.

The comments "invoke on main thread here?" and "invoke here?" at BindablePicker.cs:95, 103,
115 and 135 ask whether the mutations of `Items` should run on the UI thread. The code does not
do this, and the model does not either.

## Model

| member | source | states |
|---|---|---|
| Lists.IndexOf | XamarinUWPdataBindBug/XamarinUWPdataBindBug/BindablePicker.cs:155 | the result is -1 exactly when the item is absent; otherwise the list holds the item there and at no earlier position |
| Lists.RemoveFirst | XamarinUWPdataBindBug/XamarinUWPdataBindBug/BindablePicker.cs:106 | `Items.Remove` shortens the list by one exactly when the text is present |
| Lists.RemoveFirstAt | XamarinUWPdataBindBug/XamarinUWPdataBindBug/BindablePicker.cs:106 | Remove cuts the list at the first equal entry, the one IndexOf reports, and leaves it unchanged when there is none |
| Lists.RemoveFirstMultiset | XamarinUWPdataBindBug/XamarinUWPdataBindBug/BindablePicker.cs:106 | Remove takes away exactly one occurrence of the text and nothing else |
| Lists.RemoveEach | XamarinUWPdataBindBug/XamarinUWPdataBindBug/BindablePicker.cs:104-107 | removing k items shortens the entries by at most k and never lengthens them |
| Lists.RemoveEachMultiset | XamarinUWPdataBindBug/XamarinUWPdataBindBug/BindablePicker.cs:104-107 | the removal loop takes away exactly the multiset of the removed texts |
| Display.WhiteSpaceCharacters | XamarinUWPdataBindBug/XamarinUWPdataBindBug/BindablePicker.cs:118 | `IsWhiteSpace`, the whitespace test of `string.IsNullOrWhiteSpace`, accepts ASCII blanks and Unicode spaces and rejects letters, NUL and the zero-width characters |
| Display.BlankBindings | XamarinUWPdataBindBug/XamarinUWPdataBindBug/BindablePicker.cs:118 | `IsNullOrWhiteSpace`: "" is blank, a concatenation is blank exactly when both parts are, and " Name " is not blank |
| Display.ContainsAsInfix | XamarinUWPdataBindBug/XamarinUWPdataBindBug/BindablePicker.cs:130 | `Contains`, the `string.Contains` test on field names, holds exactly when the field name splits as prefix, binding, suffix |
| Display.LastMatch | XamarinUWPdataBindBug/XamarinUWPdataBindBug/BindablePicker.cs:128-134 | finds the last field whose name contains the binding; no later field matches, and None means no field matches |
| Display.LookupMember | XamarinUWPdataBindBug/XamarinUWPdataBindBug/BindablePicker.cs:126-134 | the overwrite loop computes the reference definition: it throws when a matching field holds null, gives the last match's value otherwise, and gives "" when nothing matches |
| Display.MemberText | XamarinUWPdataBindBug/XamarinUWPdataBindBug/BindablePicker.cs:126-134 | the field scan throws exactly when some matching field holds null; otherwise it gives "" when nothing matches, and any matching field with no later match supplies the text |
| Display.DefaultText | XamarinUWPdataBindBug/XamarinUWPdataBindBug/BindablePicker.cs:120 | `item?.ToString()` is null exactly when the element is null |
| Display.DeltaText | XamarinUWPdataBindBug/XamarinUWPdataBindBug/BindablePicker.cs:96-106 | `(item ?? "").ToString()` agrees with the rebuild's text for a non-null element, and gives "" where the rebuild gives null |
| Display.Project | XamarinUWPdataBindBug/XamarinUWPdataBindBug/BindablePicker.cs:118-136 | a blank binding never throws and gives a null entry exactly for a null element; a named binding throws exactly for a null element or a matching null field, and otherwise never gives a null entry |
| Display.BlankMemberProjection | XamarinUWPdataBindBug/XamarinUWPdataBindBug/BindablePicker.cs:118-120 | with a blank or whitespace binding, an element shows its `ToString()` and a null element gives a null entry |
| Display.NamedMemberProjection | XamarinUWPdataBindBug/XamarinUWPdataBindBug/BindablePicker.cs:122-136 | with a binding, a null element throws; otherwise projection succeeds exactly when no matching field holds null, and then shows the last matching field or "" |
| Deltas.DeltaEntries | XamarinUWPdataBindBug/XamarinUWPdataBindBug/BindablePicker.cs:96-99 | one entry per delta item, in order, each `(item ?? "").ToString()` |
| Deltas.ApplyDelta | XamarinUWPdataBindBug/XamarinUWPdataBindBug/BindablePicker.cs:91-109 | one handler run grows the entries by at most the added count and shrinks them by at most the removed count; with no removed items the old entries stay at the front and exactly the added count is appended |
| Deltas.ApplyDeltaTimes | XamarinUWPdataBindBug/XamarinUWPdataBindBug/BindablePicker.cs:89-91 | n handler runs leave the entries unchanged for an empty delta, never grow them for a removal-only delta, and keep the old entries at the front for an add-only delta |
| Deltas.AddedDeltaAppends | XamarinUWPdataBindBug/XamarinUWPdataBindBug/BindablePicker.cs:93-99 | an added delta of k items grows the entries by exactly k, keeps the old entries in place and appends the items' texts in delta order |
| Deltas.RemovedDeltaShrinks | XamarinUWPdataBindBug/XamarinUWPdataBindBug/BindablePicker.cs:101-107 | a removed delta never grows the entries and removes exactly the multiset of the texts it finds |
| Deltas.RemovedItemDeletesFirstMatch | XamarinUWPdataBindBug/XamarinUWPdataBindBug/BindablePicker.cs:104-107 | removing one item deletes the first entry equal to its text, and nothing when no entry matches |
| Deltas.SingleRemoval | XamarinUWPdataBindBug/XamarinUWPdataBindBug/BindablePicker.cs:106 | a one-item removed delta is one `Items.Remove` of the item's text |
| Deltas.RepeatedAddGrowsByMultiple | XamarinUWPdataBindBug/XamarinUWPdataBindBug/BindablePicker.cs:91-99 | a handler attached n times appends n copies of an added delta, so the entries grow by n times its length |
| Deltas.AddedDeltaKeepsCorrespondence | XamarinUWPdataBindBug/XamarinUWPdataBindBug/BindablePicker.cs:96-99 | with a blank binding, appending non-null items keeps the entries in positional correspondence with the grown list |
| Deltas.RemovedDeltaKeepsCorrespondence | XamarinUWPdataBindBug/XamarinUWPdataBindBug/BindablePicker.cs:104-107 | with a blank binding, removing a non-null element whose text no earlier element shows keeps the correspondence with the shortened list |
| Deltas.AddedNullBreaksCorrespondence | XamarinUWPdataBindBug/XamarinUWPdataBindBug/BindablePicker.cs:98 | an added null element is shown as "" where a rebuild shows null, so the correspondence is lost |
| Deltas.AddedDeltaIgnoresDisplayMember | XamarinUWPdataBindBug/XamarinUWPdataBindBug/BindablePicker.cs:98 | an added element is shown by `ToString()` even when a binding would show a field value |
| Deltas.DuplicateTextRemovesEarlierEntry | XamarinUWPdataBindBug/XamarinUWPdataBindBug/BindablePicker.cs:106 | when two elements show the same text, removing the later one deletes the earlier one's entry, and the correspondence is lost |
| Picker.SourceList.constructor | XamarinUWPdataBindBug/XamarinUWPdataBindBug/BindablePicker.cs:48-52 | the bound `IList` is a shared object holding the given elements, and notifies exactly when it implements `INotifyCollectionChanged` |
| Picker.BindablePicker.constructor | XamarinUWPdataBindBug/XamarinUWPdataBindBug/BindablePicker.cs:14-36 | a new picker has no entries, index -1, no source, an empty binding, no selected item and no handlers |
| Picker.BindablePicker.SetDisplayMemberBinding | XamarinUWPdataBindBug/XamarinUWPdataBindBug/BindablePicker.cs:54-58 | writing the binding changes only the binding; there is no callback and nothing is rebuilt |
| Picker.BindablePicker.SetItemsSource | XamarinUWPdataBindBug/XamarinUWPdataBindBug/BindablePicker.cs:82-143 | a notifying list gets one more handler; null leaves entries and selection unchanged; otherwise completion means every element projects and the entries correspond to the list, and a throw leaves the projected prefix with the failing element next |
| Picker.BindablePicker.RebuildItems | XamarinUWPdataBindBug/XamarinUWPdataBindBug/BindablePicker.cs:116-142 | the entries are the projections of a prefix of the list; they are the whole list exactly on completion, and on a throw the next element is the one that cannot be projected |
| Picker.BindablePicker.CollectionChangedHandler | XamarinUWPdataBindBug/XamarinUWPdataBindBug/BindablePicker.cs:91-109 | one handler run appends the new items' texts, then removes each old item's text once |
| Picker.BindablePicker.AppendNewItems | XamarinUWPdataBindBug/XamarinUWPdataBindBug/BindablePicker.cs:93-100 | the new items' texts are appended at the end, in order |
| Picker.BindablePicker.RemoveOldItems | XamarinUWPdataBindBug/XamarinUWPdataBindBug/BindablePicker.cs:101-108 | each old item's text is removed once, in order |
| Picker.BindablePicker.RaiseCollectionChanged | XamarinUWPdataBindBug/XamarinUWPdataBindBug/BindablePicker.cs:89-91 | a collection's delta runs once per handler attached to it, whether or not it is still the source |
| Picker.BindablePicker.OnSelectedItemPropertyChanged | XamarinUWPdataBindBug/XamarinUWPdataBindBug/BindablePicker.cs:151-159 | with no source nothing changes; otherwise the index becomes the item's first position or -1, and a write is reported exactly when the index changed |
| Picker.BindablePicker.OnSelectionChanged | XamarinUWPdataBindBug/XamarinUWPdataBindBug/BindablePicker.cs:161-180 | an index outside the entries clears the item; an index inside selects the source element there, keeps the item when the source is shorter, and throws with no source |
| Picker.BindablePicker.SetSelectedItem | XamarinUWPdataBindBug/XamarinUWPdataBindBug/BindablePicker.cs:151-180 | when the item's first position (-1 if absent) already equals the old index, the guard ends the chain and the item stays selected; an item at a position the entries cover stays selected at its first position; otherwise the selection ends up null; the final index always equals IndexOf(source, item) |
| Picker.BindablePicker.SetSelectedIndex | XamarinUWPdataBindBug/XamarinUWPdataBindBug/BindablePicker.cs:161-180 | picking entry i selects the source element at i and settles at that element's first position; out of range clears the item; with no source it throws |
| Scenarios.NamedMemberSelection | XamarinUWPdataBindBug/XamarinUWPdataBindBug/BindablePicker.cs:122-136 | [Alice, Bob] bound by "Name" shows their names; picking 1 selects Bob; selecting Alice sets index 0 |
| Scenarios.NullSourceThenPick | XamarinUWPdataBindBug/XamarinUWPdataBindBug/BindablePicker.cs:112-113 | after a null ItemsSource the old entries stay, and picking one throws |
| Scenarios.AppendAndNotify | XamarinUWPdataBindBug/XamarinUWPdataBindBug/Page1ViewModel.cs:42-44 | an owner that appends x to a list bound once, with a blank binding, leaves the picker bound to that list, with x's text appended to the entries and the entries in sync with the list |
| Scenarios.SelectThenHandleIndexChange | XamarinUWPdataBindBug/XamarinUWPdataBindBug/BindablePicker.cs:155-175 | with the entries in sync, selecting an element of the source and then running the index-change handler leaves that element selected at its first position |
| Scenarios.RebindTwiceThenAppend | XamarinUWPdataBindBug/XamarinUWPdataBindBug/BindablePicker.cs:89-91 | binding a list, another list, then the first again makes one appended item show twice |

## Left out

- Xamarin.Forms property plumbing: `BindableProperty` registration and `GetValue`/`SetValue`.
  Each property is a field, and each setter-plus-callback pair is a method. The framework skips
  the callback when the written value equals the old one; the model does not.
- The `Picker` base class's own behaviour: how it coerces `SelectedIndex` and how it reacts to
  changes of `Items`. That code is not part of this model.
- Runtime reflection (`GetRuntimeFields`, `field.GetValue`) is replaced by `TypeInfo`. The unused
  `GetRuntimeEvents` call is dropped.
- Exceptions other than `NullReferenceException` thrown while reading a field, and a `ToString()`
  that returns null.
- The `catch { throw; }` around each projection: it rethrows, and the model lets the exception
  end the rebuild.
- A null `DisplayMemberBinding`: the string is never null in the model.
- Threads: the background producer and the marshalling of mutations onto the UI thread are
  concurrency, which the model does not have.
- Each handler is modelled as one entry in `subscriptions` of a single picker. Handlers that other
  pickers attach to the same list are not modelled.
- `Page1ViewModel` beyond the append it performs: its timed `Task.Run` loop and its
  `INotifyPropertyChanged` plumbing are timing and framework code.
