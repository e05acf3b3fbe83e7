/**
 * The language picker of wwwroot/js/autocomplete.js without its DOM: the
 * filter and reordering of `updateDropdown`, and the keyboard and mouse state
 * machine over `highlightedIndex` and `visibleItems`.
 */
module Autocomplete {
  import opened JsText

  /** A dropdown entry: its `data-value`, `data-search`, `data-id` and `data-display` attributes. */
  datatype Item = Item(value: string, search: string, id: string, display: string)

  /* ---------- the filter of updateDropdown ---------- */

  /** `input.value.toLowerCase().trim()`. */
  function SearchTerm(input: string): string {
    Trim(ToLowerCase(input))
  }

  /**
   * The search term is the lower-cased input with white space stripped from
   * both ends: it holds no capital letter and neither starts nor ends with
   * white space.
   */
  lemma SearchTermMeaning(input: string)
    ensures var r := SearchTerm(input);
      && (r == [] || (!IsWhitespace(r[0]) && !IsWhitespace(r[|r| - 1])))
      && (exists a :: StrippedAt(ToLowerCase(input), r, a))
      && forall c :: c in r ==> !('A' <= c <= 'Z')
  {
    NoCapitals(ToLowerCase(input), SearchTerm(input));
  }

  /** A slice of lower-cased text holds no capital letter. */
  lemma NoCapitals(lower: string, r: string)
    requires forall i :: 0 <= i < |lower| ==> !('A' <= lower[i] <= 'Z')
    requires exists a :: StrippedAt(lower, r, a)
    ensures forall c :: c in r ==> !('A' <= c <= 'Z')
  {
    var a :| StrippedAt(lower, r, a);
    forall c | c in r ensures !('A' <= c <= 'Z') {
      var i :| 0 <= i < |r| && r[i] == c;
      assert r[i] == lower[a + i];
    }
  }

  /** Where `updateDropdown` puts an item: before the others, after them, or hidden. */
  datatype Group = ExactStart | Other | Hidden

  /** The item's search data contains the term; the name decides whether it goes first. */
  function GroupOf(item: Item, term: string): (g: Group)
    ensures g != Hidden <==> Includes(ToLowerCase(item.search), term)
    ensures g == ExactStart <==> Includes(ToLowerCase(item.search), term) && StartsWith(ToLowerCase(item.value), term)
  {
    if !Includes(ToLowerCase(item.search), term) then Hidden
    else if StartsWith(ToLowerCase(item.value), term) then ExactStart
    else Other
  }

  /** The items of group `g`, in their order in `items`. */
  function Select(items: seq<Item>, term: string, g: Group): (r: seq<Item>)
  {
    if items == [] then []
    else (if GroupOf(items[0], term) == g then [items[0]] else []) + Select(items[1..], term, g)
  }

  /** The new `visibleItems`: the items whose name starts with the term, then the other matches. */
  function Arrange(items: seq<Item>, term: string): (r: seq<Item>)
    ensures |r| + |Select(items, term, Hidden)| == |items|
  {
    SelectSizes(items, term);
    Select(items, term, ExactStart) + Select(items, term, Other)
  }

  /** Every item lands in exactly one of the three groups. */
  lemma {:induction false} SelectSizes(items: seq<Item>, term: string)
    ensures |Select(items, term, ExactStart)| + |Select(items, term, Other)| + |Select(items, term, Hidden)| == |items|
  {
    if items != [] {
      SelectSizes(items[1..], term);
    }
  }

  lemma {:induction false} SelectAppend(a: seq<Item>, b: seq<Item>, term: string, g: Group)
    ensures Select(a + b, term, g) == Select(a, term, g) + Select(b, term, g)
  {
    if a == [] {
      assert a + b == b;
    } else {
      var head := if GroupOf(a[0], term) == g then [a[0]] else [];
      calc {
        Select(a + b, term, g);
      ==  { assert (a + b)[0] == a[0]; }
        head + Select((a + b)[1..], term, g);
      ==  { assert (a + b)[1..] == a[1..] + b; }
        head + Select(a[1..] + b, term, g);
      ==  { SelectAppend(a[1..], b, term, g); }
        head + (Select(a[1..], term, g) + Select(b, term, g));
      ==
        Select(a, term, g) + Select(b, term, g);
      }
    }
  }

  /** Selecting from a selection: the same group keeps everything, another group keeps nothing. */
  lemma {:induction false} SelectSelect(items: seq<Item>, term: string, g: Group, h: Group)
    ensures Select(Select(items, term, g), term, h) == if g == h then Select(items, term, g) else []
  {
    if items != [] {
      SelectSelect(items[1..], term, g, h);
      var head := if GroupOf(items[0], term) == g then [items[0]] else [];
      SelectAppend(head, Select(items[1..], term, g), term, h);
      if head != [] {
        assert head[1..] == [];
      }
    }
  }

  /** How often `x` occurs in group `g`: as often as in `items` if it belongs to `g`, else never. */
  lemma {:induction false} SelectCount(items: seq<Item>, term: string, g: Group, x: Item)
    ensures multiset(Select(items, term, g))[x] == if GroupOf(x, term) == g then multiset(items)[x] else 0
  {
    if items != [] {
      SelectCount(items[1..], term, g, x);
      assert items == [items[0]] + items[1..];
    }
  }

  /** The visible items are exactly the matching ones, each as often as in the dropdown. */
  lemma ArrangeCounts(items: seq<Item>, term: string, x: Item)
    ensures multiset(Arrange(items, term))[x] ==
      if Includes(ToLowerCase(x.search), term) then multiset(items)[x] else 0
  {
    SelectCount(items, term, ExactStart, x);
    SelectCount(items, term, Other, x);
  }

  /** The group of a visible item is given by its position: exact-start matches, then the others. */
  lemma ArrangeGroupAt(items: seq<Item>, term: string, k: int)
    requires 0 <= k < |Arrange(items, term)|
    ensures GroupOf(Arrange(items, term)[k], term) ==
      if k < |Select(items, term, ExactStart)| then ExactStart else Other
  {
    var first, rest := Select(items, term, ExactStart), Select(items, term, Other);
    var x := Arrange(items, term)[k];
    if k < |first| {
      assert x == first[k] && x in multiset(first);
      SelectCount(items, term, ExactStart, x);
    } else {
      assert x == rest[k - |first|] && x in multiset(rest);
      SelectCount(items, term, Other, x);
    }
  }

  /** Every item whose name starts with the term comes before every other visible item. */
  lemma ArrangeGroupsOrdered(items: seq<Item>, term: string, i: int, j: int)
    requires 0 <= i < j < |Arrange(items, term)|
    requires GroupOf(Arrange(items, term)[j], term) == ExactStart
    ensures GroupOf(Arrange(items, term)[i], term) == ExactStart
  {
    ArrangeGroupAt(items, term, i);
    ArrangeGroupAt(items, term, j);
  }

  /** Within each group the visible items keep their order in the dropdown. */
  lemma ArrangeStable(items: seq<Item>, term: string)
    ensures Select(Arrange(items, term), term, ExactStart) == Select(items, term, ExactStart)
    ensures Select(Arrange(items, term), term, Other) == Select(items, term, Other)
    ensures Select(Arrange(items, term), term, Hidden) == []
  {
    var first, rest := Select(items, term, ExactStart), Select(items, term, Other);
    forall h ensures Select(Arrange(items, term), term, h) == Select(first, term, h) + Select(rest, term, h) {
      SelectAppend(first, rest, term, h);
    }
    SelectSelect(items, term, ExactStart, ExactStart);
    SelectSelect(items, term, ExactStart, Other);
    SelectSelect(items, term, ExactStart, Hidden);
    SelectSelect(items, term, Other, ExactStart);
    SelectSelect(items, term, Other, Other);
    SelectSelect(items, term, Other, Hidden);
  }

  /** Re-appending the visible items behind the hidden ones keeps the same nodes. */
  lemma ReorderIsPermutation(items: seq<Item>, term: string)
    ensures multiset(Select(items, term, Hidden) + Arrange(items, term)) == multiset(items)
  {
    forall x ensures multiset(Select(items, term, Hidden) + Arrange(items, term))[x] == multiset(items)[x] {
      SelectCount(items, term, Hidden, x);
      ArrangeCounts(items, term, x);
    }
  }

  /**
   * The loop of `updateDropdown`: one pass over the items in dropdown order,
   * pushing each match onto the exact-start or the other list; the rest are hidden.
   */
  method Partition(items: seq<Item>, term: string) returns (exactStartMatches: seq<Item>, otherMatches: seq<Item>, hidden: seq<Item>)
    ensures exactStartMatches == Select(items, term, ExactStart)
    ensures otherMatches == Select(items, term, Other)
    ensures hidden == Select(items, term, Hidden)
  {
    exactStartMatches, otherMatches, hidden := [], [], [];
    var index := 0;
    while index < |items|
      invariant 0 <= index <= |items|
      invariant exactStartMatches == Select(items[..index], term, ExactStart)
      invariant otherMatches == Select(items[..index], term, Other)
      invariant hidden == Select(items[..index], term, Hidden)
    {
      var item := items[index];
      var languageName := ToLowerCase(item.value);
      var searchData := ToLowerCase(item.search);
      var matches := Includes(searchData, term);
      if matches {
        if StartsWith(languageName, term) {
          exactStartMatches := exactStartMatches + [item];
        } else {
          otherMatches := otherMatches + [item];
        }
      } else {
        hidden := hidden + [item];
      }
      assert items[..index + 1] == items[..index] + [item];
      SelectAppend(items[..index], [item], term, ExactStart);
      SelectAppend(items[..index], [item], term, Other);
      SelectAppend(items[..index], [item], term, Hidden);
      index := index + 1;
    }
    assert items[..index] == items;
  }

  /**
   * The list work of `updateDropdown`: partition the items, then re-append
   * the visible ones behind the hidden ones.
   */
  method Rearrange(items: seq<Item>, term: string) returns (visible: seq<Item>, reordered: seq<Item>)
    requires Distinct(items)
    ensures visible == Arrange(items, term)
    ensures reordered == Select(items, term, Hidden) + visible
    ensures multiset(reordered) == multiset(items)
    ensures Distinct(reordered) && Distinct(visible)
    ensures forall x :: x in visible ==> x in reordered
  {
    var exactStartMatches, otherMatches, hidden := Partition(items, term);
    visible := exactStartMatches + otherMatches;
    reordered := hidden + visible;
    ReorderKeepsDistinct(items, term);
    ReorderIsPermutation(items, term);
  }

  /* ---------- distinct nodes ---------- */

  /** No node occurs twice. */
  ghost predicate Distinct(s: seq<Item>) {
    s == [] || (s[0] !in s[1..] && Distinct(s[1..]))
  }

  /** No node occurs twice, counted through the multiset of `s`. */
  ghost predicate AtMostOnce(s: seq<Item>) {
    forall x :: multiset(s)[x] <= 1
  }

  lemma {:induction false} DistinctIndices(s: seq<Item>, i: int, j: int)
    requires Distinct(s) && 0 <= i < j < |s|
    ensures s[i] != s[j]
  {
    if i == 0 {
      assert s[j] == s[1..][j - 1];
    } else {
      DistinctIndices(s[1..], i - 1, j - 1);
    }
  }

  lemma {:induction false} DistinctAtMostOnce(s: seq<Item>)
    requires Distinct(s)
    ensures AtMostOnce(s)
  {
    if s != [] {
      DistinctAtMostOnce(s[1..]);
      assert s == [s[0]] + s[1..];
    }
  }

  lemma {:induction false} AtMostOnceDistinct(s: seq<Item>)
    requires AtMostOnce(s)
    ensures Distinct(s)
  {
    if s != [] {
      assert s == [s[0]] + s[1..];
      assert multiset(s) == multiset{s[0]} + multiset(s[1..]);
      forall x ensures multiset(s[1..])[x] <= 1 {
        assert multiset(s)[x] == multiset{s[0]}[x] + multiset(s[1..])[x];
      }
      assert multiset(s)[s[0]] == 1 + multiset(s[1..])[s[0]];
      AtMostOnceDistinct(s[1..]);
    }
  }

  /** The re-appended dropdown and its visible part keep each node once. */
  lemma ReorderKeepsDistinct(items: seq<Item>, term: string)
    requires Distinct(items)
    ensures var visible := Arrange(items, term);
      && Distinct(Select(items, term, Hidden) + visible)
      && Distinct(visible)
      && forall x :: x in visible ==> x in Select(items, term, Hidden) + visible
  {
    var hidden, visible := Select(items, term, Hidden), Arrange(items, term);
    ReorderIsPermutation(items, term);
    DistinctAtMostOnce(items);
    assert multiset(hidden + visible) == multiset(hidden) + multiset(visible);
    forall x ensures multiset(visible)[x] <= 1 {
      assert multiset(hidden + visible)[x] == multiset(hidden)[x] + multiset(visible)[x];
    }
    AtMostOnceDistinct(hidden + visible);
    AtMostOnceDistinct(visible);
  }

  /** The highlighted nodes once the class is removed from every node of `nodes`. */
  function Unhighlight(highlighted: set<Item>, nodes: seq<Item>): (r: set<Item>)
    ensures forall i :: 0 <= i < |nodes| ==> nodes[i] !in r
    ensures r <= highlighted
    ensures forall x :: x in highlighted && x !in nodes ==> x in r
  {
    highlighted - set x | x in nodes
  }

  /** `s.indexOf(x)`: the first position of `x`, or -1. */
  function IndexOf(s: seq<Item>, x: Item): (i: int)
    ensures -1 <= i < |s|
    ensures i == -1 <==> x !in s
    ensures i >= 0 ==> s[i] == x && x !in s[..i]
  {
    if s == [] then -1
    else if s[0] == x then 0
    else
      var k := IndexOf(s[1..], x);
      if k == -1 then -1
      else
        assert s[..k + 1] == [s[0]] + s[1..][..k];
        k + 1
  }

  /* ---------- the highlight step ---------- */

  /** JavaScript `%` on integers: the remainder takes the sign of the dividend. */
  function JsRem(a: int, n: int): (r: int)
    requires n > 0
    ensures -n < r < n
    ensures a >= 0 ==> 0 <= r && r == a % n
    ensures a < 0 ==> r <= 0
    ensures (a - r) % n == 0
  {
    var b := if a >= 0 then a else -a;
    var q := b / n;
    DivModSplit(b, n);
    assert b - b % n == q * n;
    if a >= 0 then
      MultipleMod(q, n);
      a % n
    else
      assert a - (-(b % n)) == (-q) * n;
      MultipleMod(-q, n);
      -(b % n)
  }

  /** Euclidean division of a non-negative number: quotient times divisor plus remainder. */
  lemma DivModSplit(b: int, n: int)
    requires b >= 0 && n > 0
    ensures b == (b / n) * n + b % n && 0 <= b % n < n
  {}

  /** A multiple of `n` leaves no remainder. */
  lemma MultipleMod(k: int, n: int)
    requires n > 0
    ensures (k * n) % n == 0
  {
    var m := k * n;
    var q, r := m / n, m % n;
    assert m == q * n + r && 0 <= r < n;
    var d := k - q;
    assert d * n == r;
    if d >= 1 {
      MulAtLeast(d, n);
    } else if d <= -1 {
      MulAtLeast(-d, n);
    }
  }

  lemma MulAtLeast(d: int, n: int)
    requires d >= 1 && n > 0
    ensures d * n >= n
  {}

  /**
   * The index `highlightItem(step)` moves to, for the steps the arrow keys
   * use; the dividend is negative only for one item, where both remainders are 0.
   */
  function NextIndex(index: int, step: int, len: int): (r: int)
    requires len > 0 && -1 <= index < len && (step == 1 || step == -1)
    ensures 0 <= r < len
    ensures r == (index + step + len) % len
  {
    JsRem(index + step + len, len)
  }

  /** From no highlight, ArrowDown goes to the first item and ArrowUp to the second-to-last one. */
  lemma ArrowsFromNoHighlight(len: int)
    requires len >= 2
    ensures NextIndex(-1, 1, len) == 0
    ensures NextIndex(-1, -1, len) == len - 2
  {}

  /* ---------- the widget state ---------- */

  datatype Key = ArrowDown | ArrowUp | Enter | Escape | OtherKey

  /** What a key press does beyond the widget's own state. */
  datatype Action =
    | Nothing              // an arrow key, Escape, or a key the handler ignores
    | SelectAndSubmit(item: Item) // selectItem: fill the form, then submit it after a delay
    | Submit               // form.requestSubmit()

  class AutocompleteState {
    var inputValue: string
    var selectedId: string
    /** The dropdown's item nodes in document order. */
    var items: seq<Item>
    var visibleItems: seq<Item>
    var highlightedIndex: int
    /** The nodes carrying the `highlighted` class. */
    var highlighted: set<Item>
    /** `dropdown.style.display` is not 'none'. */
    var shown: bool

    /**
     * The index stays within [-1, |visibleItems|), and among the visible items
     * exactly the one at `highlightedIndex` is highlighted (none at -1).
     */
    ghost predicate Valid()
      reads this
    {
      && Distinct(items) && Distinct(visibleItems)
      && (forall x :: x in visibleItems ==> x in items)
      && -1 <= highlightedIndex < |visibleItems|
      && forall i :: 0 <= i < |visibleItems| ==> (visibleItems[i] in highlighted <==> i == highlightedIndex)
    }

    /** initAutocomplete over freshly rendered markup. */
    constructor (items: seq<Item>)
      requires Distinct(items)
      ensures Valid()
      ensures this.items == items && inputValue == "" && selectedId == ""
      ensures visibleItems == [] && highlightedIndex == -1 && highlighted == {} && !shown
    {
      this.items := items;
      inputValue, selectedId := "", "";
      visibleItems, highlightedIndex := [], -1;
      highlighted, shown := {}, false;
    }

    /**
     * updateDropdown (on `input` and `focus`): show the matching items, name
     * prefix matches first, move them behind the hidden ones, and clear the highlight.
     */
    method UpdateDropdown()
      requires Valid()
      modifies this
      ensures Valid()
      ensures var term := SearchTerm(old(inputValue));
        && visibleItems == Arrange(old(items), term)
        && items == Select(old(items), term, Hidden) + visibleItems
      ensures multiset(items) == multiset(old(items))
      ensures highlightedIndex == -1
      ensures shown <==> |visibleItems| > 0
      ensures highlighted == Unhighlight(old(highlighted), visibleItems)
      ensures inputValue == old(inputValue) && selectedId == old(selectedId)
    {
      var searchTerm := SearchTerm(inputValue);
      var visible, reordered := Rearrange(items, searchTerm);
      var stillHighlighted := Unhighlight(highlighted, visible);
      items, visibleItems, highlighted, shown, highlightedIndex := reordered, visible, stillHighlighted, |visible| > 0, -1;
    }

    /** The `input` event: the text changes, then the dropdown is filtered again. */
    method Input(value: string)
      requires Valid()
      modifies this
      ensures Valid()
      ensures inputValue == value && selectedId == old(selectedId)
      ensures visibleItems == Arrange(old(items), SearchTerm(value))
      ensures items == Select(old(items), SearchTerm(value), Hidden) + visibleItems
      ensures multiset(items) == multiset(old(items))
      ensures highlighted == Unhighlight(old(highlighted), visibleItems)
      ensures highlightedIndex == -1 && (shown <==> |visibleItems| > 0)
    {
      inputValue := value;
      UpdateDropdown();
    }

    /** highlightItem: nothing when no item is visible; otherwise move the highlight cyclically. */
    method HighlightItem(step: int)
      requires Valid() && (step == 1 || step == -1)
      modifies this
      ensures Valid()
      ensures |visibleItems| == 0 ==> highlightedIndex == old(highlightedIndex) && highlighted == old(highlighted)
      ensures |visibleItems| > 0 ==>
        && highlightedIndex == (old(highlightedIndex) + step + |visibleItems|) % |visibleItems|
        && highlighted == Unhighlight(old(highlighted), visibleItems) + {visibleItems[highlightedIndex]}
      ensures items == old(items) && visibleItems == old(visibleItems) && shown == old(shown)
      ensures inputValue == old(inputValue) && selectedId == old(selectedId)
    {
      if |visibleItems| == 0 {
        return;
      }
      highlightedIndex := NextIndex(highlightedIndex, step, |visibleItems|);
      highlighted := Unhighlight(highlighted, visibleItems) + {visibleItems[highlightedIndex]};
      forall i | 0 <= i < |visibleItems| && i != highlightedIndex ensures visibleItems[i] != visibleItems[highlightedIndex] {
        if i < highlightedIndex { DistinctIndices(visibleItems, i, highlightedIndex); }
        else { DistinctIndices(visibleItems, highlightedIndex, i); }
      }
    }

    /** The mouse enters a visible item: highlight it alone, at its index in `visibleItems`. */
    method MouseEnter(item: Item)
      requires Valid() && item in visibleItems
      modifies this
      ensures Valid()
      ensures 0 <= highlightedIndex < |visibleItems| && visibleItems[highlightedIndex] == item
      ensures highlighted == Unhighlight(old(highlighted), visibleItems) + {item}
      ensures items == old(items) && visibleItems == old(visibleItems) && shown == old(shown)
      ensures inputValue == old(inputValue) && selectedId == old(selectedId)
    {
      highlighted := Unhighlight(highlighted, visibleItems) + {item};
      highlightedIndex := IndexOf(visibleItems, item);
      forall i | 0 <= i < |visibleItems| && i != highlightedIndex ensures visibleItems[i] != item {
        if i < highlightedIndex { DistinctIndices(visibleItems, i, highlightedIndex); }
        else { DistinctIndices(visibleItems, highlightedIndex, i); }
      }
    }

    /** selectItem: fill the input and the hidden id, hide the dropdown; the submit follows. */
    method SelectItem(item: Item) returns (action: Action)
      requires Valid()
      modifies this
      ensures Valid()
      ensures action == SelectAndSubmit(item)
      ensures inputValue == (if item.value != "" then item.value else item.display)
      ensures selectedId == item.id && !shown
      ensures items == old(items) && visibleItems == old(visibleItems)
      ensures highlightedIndex == old(highlightedIndex) && highlighted == old(highlighted)
    {
      inputValue := if item.value != "" then item.value else item.display;
      selectedId := item.id;
      shown := false;
      action := SelectAndSubmit(item);
    }

    /**
     * handleKeyDown: the arrows move the highlight; Enter selects the
     * highlighted item, else the first visible one, else submits the form as
     * typed; Escape hides the dropdown; other keys are left alone.
     */
    method HandleKeyDown(key: Key) returns (action: Action)
      requires Valid()
      modifies this
      ensures Valid()
      ensures items == old(items) && visibleItems == old(visibleItems)
      ensures key != Enter ==> action == Nothing && inputValue == old(inputValue) && selectedId == old(selectedId)
      ensures key == ArrowDown || key == ArrowUp ==>
        && shown == old(shown)
        && (|visibleItems| == 0 ==> highlightedIndex == old(highlightedIndex) && highlighted == old(highlighted))
        && (|visibleItems| > 0 ==>
              && highlightedIndex == (old(highlightedIndex) + (if key == ArrowDown then 1 else -1) + |visibleItems|) % |visibleItems|
              && highlighted == Unhighlight(old(highlighted), visibleItems) + {visibleItems[highlightedIndex]})
      ensures key == Enter ==>
        action == (if old(highlightedIndex) >= 0 then SelectAndSubmit(old(visibleItems)[old(highlightedIndex)])
                   else if |old(visibleItems)| > 0 then SelectAndSubmit(old(visibleItems)[0])
                   else Submit)
      ensures key == Enter && action.SelectAndSubmit? ==>
        && inputValue == (if action.item.value != "" then action.item.value else action.item.display)
        && selectedId == action.item.id && !shown
        && highlightedIndex == old(highlightedIndex) && highlighted == old(highlighted)
      ensures key == Enter && action == Submit ==>
        && inputValue == old(inputValue) && selectedId == old(selectedId) && shown == old(shown)
        && highlightedIndex == old(highlightedIndex) && highlighted == old(highlighted)
      ensures key == Escape ==> !shown && highlightedIndex == old(highlightedIndex) && highlighted == old(highlighted)
      ensures key == OtherKey ==>
        shown == old(shown) && highlightedIndex == old(highlightedIndex) && highlighted == old(highlighted)
    {
      match key
      case ArrowDown =>
        HighlightItem(1);
        action := Nothing;
      case ArrowUp =>
        HighlightItem(-1);
        action := Nothing;
      case Enter =>
        if highlightedIndex >= 0 {
          action := SelectItem(visibleItems[highlightedIndex]);
        } else if |visibleItems| > 0 {
          action := SelectItem(visibleItems[0]);
        } else {
          action := Submit;
        }
      case Escape =>
        shown := false;
        action := Nothing;
      case OtherKey =>
        action := Nothing;
    }
  }
}
