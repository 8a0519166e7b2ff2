/** The editor for the list of actions a filter rule applies.  The rule's
    actions are an array of option values held in a reactive reference; the
    editor appends the first option not yet chosen, removes an entry with
    `splice`, overwrites an entry in place and offers, for each entry, the
    options that entry may switch to. */
module RuleActions {
  import opened Wrappers

  /** One choice of the action drop-down: its value and the key of its label. */
  datatype ActionOption = ActionOption(value: string, labelKey: string)

  /** The reactive reference whose `value` array the editor changes in place. */
  class ActionsRef {
    var value: seq<string>

    constructor(init: seq<string>)
      ensures value == init
    {
      value := init;
    }
  }

  /** No action value is chosen twice. */
  predicate NoDup(xs: seq<string>)
  {
    forall i, j :: 0 <= i < j < |xs| ==> xs[i] != xs[j]
  }

  /** The set built from the chosen values. */
  function Selected(xs: seq<string>): (s: set<string>)
    ensures forall x :: x in s <==> x in xs
  {
    set x | x in xs
  }

  /** The index of the first option from `k` on whose value is not in
      `selected`, as `find` scans the options in order. */
  function FirstUnusedFrom(options: seq<ActionOption>, selected: set<string>, k: nat): (r: Option<nat>)
    requires k <= |options|
    ensures r.Some? ==> k <= r.value < |options| && options[r.value].value !in selected
    ensures r.Some? ==> forall j :: k <= j < r.value ==> options[j].value in selected
    ensures r.None? ==> forall j :: k <= j < |options| ==> options[j].value in selected
    decreases |options| - k
  {
    if k == |options| then None
    else if options[k].value !in selected then Some(k)
    else FirstUnusedFrom(options, selected, k + 1)
  }

  /** The first option, in the given order, whose value is not chosen yet. */
  function FirstUnused(options: seq<ActionOption>, selected: set<string>): (r: Option<nat>)
    ensures r.Some? ==> r.value < |options| && options[r.value].value !in selected
    ensures r.Some? ==> forall j :: 0 <= j < r.value ==> options[j].value in selected
    ensures r.None? <==> forall j :: 0 <= j < |options| ==> options[j].value in selected
  {
    FirstUnusedFrom(options, selected, 0)
  }

  /** Appends the first option whose value is not chosen yet; with every
      option chosen the list stays as it is. */
  method AddAction(options: seq<ActionOption>, actions: ActionsRef)
    modifies actions
    ensures FirstUnused(options, Selected(old(actions.value))).None? ==> actions.value == old(actions.value)
    ensures FirstUnused(options, Selected(old(actions.value))).Some? ==>
      actions.value == old(actions.value) + [options[FirstUnused(options, Selected(old(actions.value))).value].value]
    ensures NoDup(old(actions.value)) ==> NoDup(actions.value)
  {
    ghost var before := actions.value;
    var selectedActions := Selected(actions.value);
    var available := FirstUnused(options, selectedActions);
    if available.Some? {
      actions.value := actions.value + [options[available.value].value];
    }
    if NoDup(before) {
      AddedValueIsNew(options, before);
    }
  }

  /** The value adding appends is not in the list yet, so a list without
      duplicates stays without them. */
  lemma AddedValueIsNew(options: seq<ActionOption>, xs: seq<string>)
    requires NoDup(xs)
    ensures match FirstUnused(options, Selected(xs))
      case None => true
      case Some(k) => NoDup(xs + [options[k].value]) && options[k].value !in xs
  {
    var r := FirstUnused(options, Selected(xs));
    if r.Some? {
      var ys := xs + [options[r.value].value];
      forall i, j | 0 <= i < j < |ys|
        ensures ys[i] != ys[j]
      {
        if j == |xs| {
          assert ys[i] == xs[i];
        }
      }
    }
  }

  /** Where `splice(index, 1)` starts: a negative index counts back from
      the end and is clamped at 0, a large one is clamped at the length. */
  function SpliceStart(len: nat, index: int): (s: nat)
    ensures s <= len
    ensures 0 <= index ==> s == if index < len then index else len
    ensures index < 0 ==> s == if len + index < 0 then 0 else len + index
  {
    if index < 0 then (if len + index < 0 then 0 else len + index)
    else if index < len then index
    else len
  }

  /** The list after `splice(index, 1)`. */
  function Spliced(xs: seq<string>, index: int): (r: seq<string>)
    ensures var s := SpliceStart(|xs|, index);
      if s < |xs| then
        |r| == |xs| - 1 && multiset(r) + multiset{xs[s]} == multiset(xs)
      else
        r == xs
  {
    var s := SpliceStart(|xs|, index);
    if s < |xs| then
      assert xs == xs[..s] + [xs[s]] + xs[s + 1..];
      xs[..s] + xs[s + 1..]
    else xs
  }

  /** JavaScript's negative `splice` index counts from the end: -1 removes
      the last entry, -k the entry at length - k, and an index before the
      start removes the first entry; an index at or past the end removes
      nothing. */
  lemma SpliceNegativeIndex(xs: seq<string>, index: int)
    ensures 0 < |xs| ==> Spliced(xs, -1) == xs[..|xs| - 1]
    ensures -|xs| <= index < 0 ==> Spliced(xs, index) == Spliced(xs, |xs| + index)
    ensures index < -|xs| ==> Spliced(xs, index) == Spliced(xs, 0)
    ensures 0 < |xs| ==> Spliced(xs, 0) == xs[1..]
    ensures |xs| <= index ==> Spliced(xs, index) == xs
  {
    if 0 < |xs| {
      assert xs[..0] + xs[1..] == xs[1..];
      assert xs[..|xs| - 1] + xs[|xs|..] == xs[..|xs| - 1];
    }
  }

  /** Removing entry `i` keeps the entries before it in place and shifts
      the ones after it down by one. */
  lemma SplicedPositions(xs: seq<string>, i: nat)
    requires i < |xs|
    ensures |Spliced(xs, i)| == |xs| - 1
    ensures forall k :: 0 <= k < i ==> Spliced(xs, i)[k] == xs[k]
    ensures forall k :: i <= k < |xs| - 1 ==> Spliced(xs, i)[k] == xs[k + 1]
  {
  }

  /** Removing an entry never introduces a duplicate. */
  lemma SplicedKeepsNoDup(xs: seq<string>, index: int)
    requires NoDup(xs)
    ensures NoDup(Spliced(xs, index))
  {
    var s := SpliceStart(|xs|, index);
    if s < |xs| {
      var r := Spliced(xs, index);
      forall i, j | 0 <= i < j < |r|
        ensures r[i] != r[j]
      {
        var i' := if i < s then i else i + 1;
        var j' := if j < s then j else j + 1;
        assert r[i] == xs[i'] && r[j] == xs[j'];
      }
    }
  }

  /** `actions.value.splice(index, 1)`. */
  method RemoveAction(actions: ActionsRef, index: int)
    modifies actions
    ensures actions.value == Spliced(old(actions.value), index)
    ensures NoDup(old(actions.value)) ==> NoDup(actions.value)
  {
    ghost var before := actions.value;
    var s := SpliceStart(|actions.value|, index);
    if s < |actions.value| {
      actions.value := actions.value[..s] + actions.value[s + 1..];
    }
    if NoDup(before) {
      SplicedKeepsNoDup(before, index);
    }
  }

  /** The array after `xs[index] = v`: a position inside the array is
      overwritten, the position just past the end is appended, and a
      negative index names no element. */
  function Updated(xs: seq<string>, index: int, v: string): (r: seq<string>)
    requires index <= |xs|
    ensures index < 0 ==> r == xs
    ensures 0 <= index ==> |r| == (if index == |xs| then |xs| + 1 else |xs|) && r[index] == v
    ensures forall k :: 0 <= k < |xs| && k != index ==> r[k] == xs[k]
  {
    if index < 0 then xs
    else if index == |xs| then xs + [v]
    else xs[index := v]
  }

  /** `actions.value[index] = value`. */
  method UpdateAction(actions: ActionsRef, index: int, value: string)
    requires index <= |actions.value|
    modifies actions
    ensures actions.value == Updated(old(actions.value), index, value)
  {
    if 0 <= index {
      if index == |actions.value| {
        actions.value := actions.value + [value];
      } else {
        actions.value := actions.value[index := value];
      }
    }
  }

  /** The options whose value is not chosen, or is the value of the entry
      being edited, in their original order. */
  function GetAvailableActions(options: seq<ActionOption>, actions: seq<string>, currentValue: string): (r: seq<ActionOption>)
    ensures |r| <= |options|
    ensures forall o :: o in r <==> o in options && (o.value !in actions || o.value == currentValue)
  {
    if options == [] then []
    else
      var rest := GetAvailableActions(options[1..], actions, currentValue);
      var o := options[0];
      assert forall p :: p in options <==> p == o || p in options[1..] by {
        assert options == [o] + options[1..];
      }
      if o.value !in Selected(actions) || o.value == currentValue then [o] + rest else rest
  }

  /** Filtering keeps the options' order: the options available from two
      lists in a row are those of the first followed by those of the
      second. */
  lemma {:induction false} AvailableOfConcat(a: seq<ActionOption>, b: seq<ActionOption>, actions: seq<string>, currentValue: string)
    ensures GetAvailableActions(a + b, actions, currentValue)
      == GetAvailableActions(a, actions, currentValue) + GetAvailableActions(b, actions, currentValue)
    decreases |a|
  {
    if a != [] {
      assert (a + b)[1..] == a[1..] + b;
      AvailableOfConcat(a[1..], b, actions, currentValue);
    } else {
      assert a + b == b;
    }
  }

  /** Switching entry `i` to a value the editor offers for it keeps the
      list free of duplicates. */
  lemma UpdateWithAvailableKeepsNoDup(options: seq<ActionOption>, xs: seq<string>, i: nat, o: ActionOption)
    requires NoDup(xs) && i < |xs|
    requires o in GetAvailableActions(options, xs, xs[i])
    ensures NoDup(Updated(xs, i, o.value))
  {
    var r := Updated(xs, i, o.value);
    forall j, k | 0 <= j < k < |r|
      ensures r[j] != r[k]
    {
      if j == i || k == i {
        if o.value == xs[i] {
          assert r == xs;
        }
      }
    }
  }
}
