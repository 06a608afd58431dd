/**
 * The collection-changed handler that the picker attaches to a notifying
 * ItemsSource. For each added item it appends the item's string form to the
 * entries, whatever position the notification reports; for each removed item
 * it deletes the first entry equal to that item's string form. The handler
 * ignores DisplayMemberBinding, and a null item stands for "".
 */
module Deltas {
  import opened Wrappers
  import opened Lists
  import opened Display

  /** The entries the handler compares or appends for the items es, in order. */
  function DeltaEntries<T>(info: TypeInfo<T>, es: seq<Option<T>>): (r: seq<Option<string>>)
    ensures |r| == |es|
    ensures forall k :: 0 <= k < |es| ==> r[k] == Some(DeltaText(info, es[k]))
  {
    if es == [] then [] else DeltaEntries(info, es[..|es| - 1]) + [Some(DeltaText(info, es[|es| - 1]))]
  }

  /** The number of items a delta list carries; a null list carries none. */
  function DeltaSize<T>(items: Option<seq<Option<T>>>): nat
  {
    if items.Some? then |items.value| else 0
  }

  /**
   * One run of the handler: the NewItems are appended first, then each of the
   * OldItems is removed. The entries grow by at most the added count and
   * shrink by at most the removed count; with no OldItems the old entries
   * stay in place at the front.
   */
  function ApplyDelta<T>(info: TypeInfo<T>, entries: seq<Option<string>>,
                         newItems: Option<seq<Option<T>>>, oldItems: Option<seq<Option<T>>>): (r: seq<Option<string>>)
    ensures |entries| + DeltaSize(newItems) - DeltaSize(oldItems) <= |r| <= |entries| + DeltaSize(newItems)
    ensures oldItems.None? ==> |r| == |entries| + DeltaSize(newItems) && r[..|entries|] == entries
  {
    var grown := if newItems.Some? then entries + DeltaEntries(info, newItems.value) else entries;
    if oldItems.Some? then RemoveEach(grown, DeltaEntries(info, oldItems.value)) else grown
  }

  /** The handler run n times, once for each subscription the picker holds on the collection. */
  function ApplyDeltaTimes<T>(info: TypeInfo<T>, entries: seq<Option<string>>, n: nat,
                              newItems: Option<seq<Option<T>>>, oldItems: Option<seq<Option<T>>>): (r: seq<Option<string>>)
    ensures newItems.None? && oldItems.None? ==> r == entries
    ensures newItems.None? ==> |r| <= |entries|
    ensures oldItems.None? ==> |entries| <= |r| && r[..|entries|] == entries
  {
    if n == 0 then entries
    else ApplyDelta(info, ApplyDeltaTimes(info, entries, n - 1, newItems, oldItems), newItems, oldItems)
  }

  /**
   * An "added" delta of k items grows the entries by exactly k: the old entries
   * keep their positions and the items' string forms follow in delta order.
   */
  lemma AddedDeltaAppends<T>(info: TypeInfo<T>, entries: seq<Option<string>>, news: seq<Option<T>>)
    ensures var r := ApplyDelta(info, entries, Some(news), None);
      |r| == |entries| + |news| && r[..|entries|] == entries &&
      forall k :: 0 <= k < |news| ==> r[|entries| + k] == Some(DeltaText(info, news[k]))
  {
  }

  /**
   * A "removed" delta never grows the entries; it removes exactly the
   * multiset of the items' string forms that are present, and each removal
   * that finds no equal entry leaves the entries as they are.
   */
  lemma RemovedDeltaShrinks<T>(info: TypeInfo<T>, entries: seq<Option<string>>, olds: seq<Option<T>>)
    ensures var r := ApplyDelta(info, entries, None, Some(olds));
      |entries| - |olds| <= |r| <= |entries| &&
      multiset(r) == multiset(entries) - multiset(DeltaEntries(info, olds))
  {
    RemoveEachMultiset(entries, DeltaEntries(info, olds));
  }

  /** Removing one item deletes the first entry equal to its string form, or nothing when there is none. */
  lemma RemovedItemDeletesFirstMatch<T>(info: TypeInfo<T>, entries: seq<Option<string>>, e: Option<T>)
    ensures var t := Some(DeltaText(info, e));
      var r := ApplyDelta(info, entries, None, Some([e]));
      (t !in entries ==> r == entries) &&
      (t in entries ==> r == entries[..IndexOf(entries, t)] + entries[IndexOf(entries, t) + 1..])
  {
    var t := Some(DeltaText(info, e));
    SingleRemoval(info, entries, e);
    RemoveFirstAt(entries, t);
  }

  /** A delta that removes one item is one IList.Remove of its string form. */
  lemma SingleRemoval<T>(info: TypeInfo<T>, entries: seq<Option<string>>, e: Option<T>)
    ensures ApplyDelta(info, entries, None, Some([e])) == RemoveFirst(entries, Some(DeltaText(info, e)))
  {
    var d := DeltaEntries(info, [e]);
    assert d == [Some(DeltaText(info, e))];
    assert d[..0] == [];
    assert RemoveEach(entries, d) == RemoveFirst(RemoveEach(entries, []), d[0]);
  }

  /** A handler attached n times appends n copies of an added delta. */
  lemma {:induction false} RepeatedAddGrowsByMultiple<T>(info: TypeInfo<T>, entries: seq<Option<string>>, n: nat,
                                                          news: seq<Option<T>>)
    ensures ApplyDeltaTimes(info, entries, n, Some(news), None) == entries + Repeat(DeltaEntries(info, news), n)
    ensures |ApplyDeltaTimes(info, entries, n, Some(news), None)| == |entries| + n * |news|
  {
    if n > 0 {
      RepeatedAddGrowsByMultiple(info, entries, n - 1, news);
    }
  }

  /** s concatenated n times. */
  function Repeat<X>(s: seq<X>, n: nat): (r: seq<X>)
    ensures |r| == n * |s|
  {
    if n == 0 then [] else Repeat(s, n - 1) + s
  }

  /**
   * With a blank binding and non-null added items, the handler keeps the
   * entries in positional correspondence with the collection that received
   * the items at its end.
   */
  lemma AddedDeltaKeepsCorrespondence<T>(info: TypeInfo<T>, member: string, entries: seq<Option<string>>,
                                         elems: seq<Option<T>>, news: seq<Option<T>>)
    requires IsNullOrWhiteSpace(member)
    requires Corresponds(info, member, entries, elems)
    requires forall k :: 0 <= k < |news| ==> news[k].Some?
    ensures Corresponds(info, member, ApplyDelta(info, entries, Some(news), None), elems + news)
  {
    var r := ApplyDelta(info, entries, Some(news), None);
    forall j | 0 <= j < |r|
      ensures Project(info, member, (elems + news)[j]) == Ok(r[j])
    {
      if j >= |entries| {
        BlankMemberProjection(info, member, news[j - |entries|]);
      }
    }
  }

  /**
   * With a blank binding, removing a non-null element keeps the correspondence
   * when no earlier element shows the same text: the first equal entry is then
   * the element's own.
   */
  lemma RemovedDeltaKeepsCorrespondence<T>(info: TypeInfo<T>, member: string, entries: seq<Option<string>>,
                                           elems: seq<Option<T>>, k: nat)
    requires IsNullOrWhiteSpace(member)
    requires Corresponds(info, member, entries, elems)
    requires k < |elems| && elems[k].Some?
    requires forall j :: 0 <= j < k ==> DefaultText(info, elems[j]) != DefaultText(info, elems[k])
    ensures Corresponds(info, member, ApplyDelta(info, entries, None, Some([elems[k]])), elems[..k] + elems[k + 1..])
  {
    var t := Some(DeltaText(info, elems[k]));
    assert entries[k] == t;
    SingleRemoval(info, entries, elems[k]);
    RemoveFirstAt(entries, t);
    assert IndexOf(entries, t) == k;
    var r := RemoveFirst(entries, t);
    var rest := elems[..k] + elems[k + 1..];
    assert |r| == |rest|;
    forall j | 0 <= j < |r|
      ensures Project(info, member, rest[j]) == Ok(r[j])
    {
      if j < k {
        assert r[j] == entries[j] && rest[j] == elems[j];
      } else {
        assert r[j] == entries[j + 1] && rest[j] == elems[j + 1];
      }
    }
  }

  /**
   * With a blank binding an added null element breaks the correspondence: the
   * handler appends "" where a rebuild would add a null entry.
   */
  lemma AddedNullBreaksCorrespondence<T>(info: TypeInfo<T>, member: string, entries: seq<Option<string>>,
                                         elems: seq<Option<T>>)
    requires IsNullOrWhiteSpace(member)
    ensures !Corresponds(info, member, ApplyDelta(info, entries, Some([None]), None), elems + [None])
  {
    var r := ApplyDelta(info, entries, Some([None]), None);
    if |r| == |elems + [None]| {
      assert r[|entries|] == Some("");
      assert (elems + [None])[|entries|] == None;
    }
  }

  /**
   * The handler ignores DisplayMemberBinding: an element whose bound field
   * reads "Alice" but whose string form is "Item" is appended as "Item",
   * while a rebuild would show "Alice".
   */
  lemma AddedDeltaIgnoresDisplayMember()
    ensures var info := TypeInfo((x: int) => "Item", (x: int) => [Field("Name", Some("Alice"))]);
      ApplyDelta(info, [], Some([Some(1)]), None) == [Some("Item")] &&
      Project(info, "Name", Some(1)) == Ok(Some("Alice"))
  {
    var info := TypeInfo((x: int) => "Item", (x: int) => [Field("Name", Some("Alice"))]);
    assert !IsWhiteSpace("Name"[0]);
    assert Matches(Field("Name", Some("Alice")), "Name") by {
      assert "Name" <= "Name"[0..];
    }
    assert MemberText(info.fields(1), "Name") == Ok("Alice");
  }

  /**
   * Removal matches by text, not by position: in [a, b, c] where a and c both
   * show "x", removing c deletes a's entry, and the entries no longer
   * correspond to the remaining [a, b].
   */
  lemma DuplicateTextRemovesEarlierEntry()
    ensures var info := TypeInfo((x: int) => if x == 2 then "y" else "x", (x: int) => []);
      var entries := [Some("x"), Some("y"), Some("x")];
      Corresponds(info, "", entries, [Some(1), Some(2), Some(3)]) &&
      ApplyDelta(info, entries, None, Some([Some(3)])) == [Some("y"), Some("x")] &&
      !Corresponds(info, "", [Some("y"), Some("x")], [Some(1), Some(2)])
  {
    var info := TypeInfo((x: int) => if x == 2 then "y" else "x", (x: int) => []);
    var entries := [Some("x"), Some("y"), Some("x")];
    SingleRemoval(info, entries, Some(3));
    assert Project(info, "", Some(1)) == Ok(Some("x"));
  }
}
