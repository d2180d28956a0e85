/** The statute combobox: a text input with a suggestion list of at most ten statutes, keyboard
    navigation, selection and clearing. The selected statute is owned by the parent; the
    component asks for changes to it through `onChange`, which the handlers here return. */
module StatuteFilter {
  import opened Common

  /** A statute option: its value, display label and opinion count. */
  datatype Statute = Statute(value: string, labelText: string, count: nat)

  /** The keys the input reacts to; every other key is `OtherKey`. */
  datatype Key = ArrowDown | ArrowUp | Enter | Escape | OtherKey

  /** At most this many suggestions are listed. */
  const MaxSuggestions: int := 10

  // ---------------------------------------------------------------------------
  // Derived values
  // ---------------------------------------------------------------------------

  /** `statutes.find(s => s.value === v)`: the first statute with that value. */
  function FindStatute(statutes: seq<Statute>, v: string): (r: Option<Statute>)
    ensures r.Some? <==> exists s :: s in statutes && s.value == v
    ensures r.Some? ==> r.value in statutes && r.value.value == v
    decreases |statutes|
  {
    if statutes == [] then None
    else if statutes[0].value == v then Some(statutes[0])
    else FindStatute(statutes[1..], v)
  }

  /** `selectedItem`: the statute whose value is the selected value, when that is set. */
  function SelectedItem(statutes: seq<Statute>, value: Option<string>): (r: Option<Statute>)
    ensures r.Some? <==> Truthy(value) && exists s :: s in statutes && s.value == value.value
    ensures r.Some? ==> r.value in statutes && r.value.value == value.value
  {
    if Truthy(value) then FindStatute(statutes, value.value) else None
  }

  /** A statute matches a lower-cased query when its value or its label, lower-cased, contains
      it. */
  predicate Matches(s: Statute, q: string) {
    Contains(Lower(s.value), q) || Contains(Lower(s.labelText), q)
  }

  /** The statutes that match `q`, in their original order. */
  function Matching(statutes: seq<Statute>, q: string): seq<Statute>
    decreases |statutes|
  {
    if statutes == [] then []
    else (if Matches(statutes[0], q) then [statutes[0]] else []) + Matching(statutes[1..], q)
  }

  /** A statute is among the matching ones exactly when it is listed and matches. */
  lemma {:induction false} MatchingMembers(statutes: seq<Statute>, q: string, s: Statute)
    ensures s in Matching(statutes, q) <==> s in statutes && Matches(s, q)
    decreases |statutes|
  {
    if statutes != [] {
      MatchingMembers(statutes[1..], q, s);
      assert statutes == [statutes[0]] + statutes[1..];
    }
  }

  /** Matching keeps the original order: the matches of a concatenation are the matches of the
      first part followed by those of the second. */
  lemma {:induction false} MatchingAppend(a: seq<Statute>, b: seq<Statute>, q: string)
    ensures Matching(a + b, q) == Matching(a, q) + Matching(b, q)
    decreases |a|
  {
    if a == [] {
      assert a + b == b;
    } else {
      MatchingAppend(a[1..], b, q);
      assert (a + b)[1..] == a[1..] + b;
    }
  }

  /** The first at most `n` entries: `xs.slice(0, n)`. */
  function Take<T>(xs: seq<T>, n: nat): (r: seq<T>)
    ensures |r| == if |xs| <= n then |xs| else n
    ensures r == xs[..|r|]
  {
    if |xs| <= n then xs else xs[..n]
  }

  /** `filtered`: the suggestions. */
  function Suggestions(statutes: seq<Statute>, input: string, value: Option<string>): seq<Statute> {
    if input != "" && SelectedItem(statutes, value).None? then
      Take(Matching(statutes, Lower(input)), MaxSuggestions)
    else []
  }

  /** No suggestions while the input is empty or a statute is selected. Otherwise the
      suggestions are the first ten matching statutes in their original order: each is a listed
      statute whose value or label contains the input case-insensitively, and when at most ten
      statutes match, all of them are suggested. */
  lemma SuggestionsSpec(statutes: seq<Statute>, input: string, value: Option<string>)
    ensures var r := Suggestions(statutes, input, value);
      && (input == "" || SelectedItem(statutes, value).Some? ==> r == [])
      && |r| <= MaxSuggestions
      && (input != "" && SelectedItem(statutes, value).None? ==>
            var m := Matching(statutes, Lower(input));
            && r == m[..|r|]
            && (|m| <= MaxSuggestions ==> r == m)
            && (forall s :: s in r ==> s in statutes && Matches(s, Lower(input)))
            && (|m| <= MaxSuggestions ==>
                  forall s :: s in statutes && Matches(s, Lower(input)) ==> s in r))
  {
    if input != "" && SelectedItem(statutes, value).None? {
      var q := Lower(input);
      var m := Matching(statutes, q);
      var r := Suggestions(statutes, input, value);
      forall s | s in r
        ensures s in statutes && Matches(s, q)
      {
        assert s in m;
        MatchingMembers(statutes, q, s);
      }
      forall s | |m| <= MaxSuggestions && s in statutes && Matches(s, q)
        ensures s in r
      {
        MatchingMembers(statutes, q, s);
      }
    }
  }

  /** The highlight after an arrow key over `len` suggestions: one down, but not past the last;
      one up, but not before the first. From a highlight in range it stays in range. */
  function MoveHighlight(key: Key, i: int, len: int): (r: int)
    requires key == ArrowDown || key == ArrowUp
    ensures key == ArrowDown ==> r == (if i + 1 <= len - 1 then i + 1 else len - 1)
    ensures key == ArrowUp ==> r == (if i - 1 >= 0 then i - 1 else 0)
    ensures 0 <= i < len ==> 0 <= r < len
  {
    if key == ArrowDown then
      if i + 1 <= len - 1 then i + 1 else len - 1
    else
      if i - 1 >= 0 then i - 1 else 0
  }

  // ---------------------------------------------------------------------------
  // The component
  // ---------------------------------------------------------------------------

  /** The combobox: its props (the statute options and the selected value) and its own state
      (the text in the input, whether the list is open, and the highlighted suggestion). */
  class Combobox {
    var statutes: seq<Statute>
    var value: Option<string>
    var input: string
    var open: bool
    var highlightIndex: int

    /** Mount: the state starts with an empty input, a closed list and the first suggestion
        highlighted, then the sync effect runs once, so a value naming a listed statute shows
        that statute's label. */
    constructor (statutes: seq<Statute>, value: Option<string>)
      ensures this.statutes == statutes && this.value == value
      ensures SelectedItem(statutes, value).Some? ==>
                input == SelectedItem(statutes, value).value.labelText
      ensures SelectedItem(statutes, value).None? ==> input == ""
      ensures !open && highlightIndex == 0
    {
      this.statutes := statutes;
      this.value := value;
      open := false;
      highlightIndex := 0;
      var selected := SelectedItem(statutes, value);
      input := if selected.Some? then selected.value.labelText else "";
    }

    function Selected(): Option<Statute>
      reads this
    {
      SelectedItem(statutes, value)
    }

    function Filtered(): seq<Statute>
      reads this
    {
      Suggestions(statutes, input, value)
    }

    /** The value-sync effect: no selected value empties the input, a selected value that names
        a listed statute shows that statute's label, and an unknown value leaves the input. */
    method SyncInput()
      modifies this
      ensures !Truthy(value) ==> input == ""
      ensures Truthy(value) && Selected().Some? ==> input == Selected().value.labelText
      ensures Truthy(value) && Selected().None? ==> input == old(input)
      ensures statutes == old(statutes) && value == old(value)
      ensures open == old(open) && highlightIndex == old(highlightIndex)
    {
      var selected := SelectedItem(statutes, value);
      if !Truthy(value) {
        input := "";
      } else if selected.Some? {
        input := selected.value.labelText;
      }
    }

    /** New props from the parent. The sync effect runs when the value or the selected statute
        differs from before. */
    method ReceiveProps(newStatutes: seq<Statute>, newValue: Option<string>)
      modifies this
      ensures statutes == newStatutes && value == newValue
      ensures open == old(open) && highlightIndex == old(highlightIndex)
      ensures newValue == old(value) && Selected() == old(Selected()) ==> input == old(input)
      ensures newValue != old(value) || Selected() != old(Selected()) ==>
        (!Truthy(value) ==> input == "")
        && (Truthy(value) && Selected().Some? ==> input == Selected().value.labelText)
        && (Truthy(value) && Selected().None? ==> input == old(input))
    {
      var before, oldValue := SelectedItem(statutes, value), value;
      statutes := newStatutes;
      value := newValue;
      if newValue != oldValue || SelectedItem(statutes, value) != before {
        SyncInput();
      }
    }

    /** `handleInputChange`: the input takes the typed text, the list opens iff the text is
        non-empty, the highlight returns to the first suggestion, and a selection in place is
        cleared through `onChange(null)`. */
    method HandleInputChange(text: string) returns (change: Option<Option<string>>)
      modifies this
      ensures input == text && open == (|text| > 0) && highlightIndex == 0
      ensures change == if old(Selected()).Some? then Some(None) else None
      ensures statutes == old(statutes) && value == old(value)
    {
      var selected := SelectedItem(statutes, value);
      input := text;
      change := None;
      if selected.Some? {
        change := Some(None);
      }
      open := |text| > 0;
      highlightIndex := 0;
    }

    /** `handleSelect`: asks for the statute's value, shows its label and closes the list. */
    method HandleSelect(s: Statute) returns (change: Option<Option<string>>)
      modifies this
      ensures change == Some(Some(s.value))
      ensures input == s.labelText && !open
      ensures statutes == old(statutes) && value == old(value)
      ensures highlightIndex == old(highlightIndex)
    {
      change := Some(Some(s.value));
      input := s.labelText;
      open := false;
    }

    /** `handleClear`: asks for no statute, empties the input and closes the list. */
    method HandleClear() returns (change: Option<Option<string>>)
      modifies this
      ensures change == Some(None)
      ensures input == "" && !open
      ensures statutes == old(statutes) && value == old(value)
      ensures highlightIndex == old(highlightIndex)
    {
      change := Some(None);
      input := "";
      open := false;
    }

    /** Focusing the input reopens the list when there is text and no selection. */
    method HandleFocus()
      modifies this
      ensures open == (old(open) || (input != "" && Selected().None?))
      ensures input == old(input) && statutes == old(statutes) && value == old(value)
      ensures highlightIndex == old(highlightIndex)
    {
      if input != "" && SelectedItem(statutes, value).None? {
        open := true;
      }
    }

    /** Hovering over the `i`-th listed suggestion highlights it. */
    method HandleHover(i: int)
      requires 0 <= i < |Filtered()|
      modifies this
      ensures highlightIndex == i
      ensures input == old(input) && open == old(open)
      ensures statutes == old(statutes) && value == old(value)
    {
      highlightIndex := i;
    }

    /** `handleKeyDown`. While the list is closed or has no suggestions only Escape does
        anything (it closes the list). Otherwise the arrows move the highlight within the list,
        Enter selects the highlighted suggestion and Escape closes the list. Enter with the
        highlight outside the list is a type error in the browser (`failed`), and nothing
        changes. */
    method HandleKeyDown(key: Key) returns (change: Option<Option<string>>, failed: bool)
      modifies this
      ensures statutes == old(statutes) && value == old(value)
      ensures var f := old(Filtered());
        if !old(open) || f == [] then
          && change.None? && !failed
          && input == old(input) && highlightIndex == old(highlightIndex)
          && open == (old(open) && key != Escape)
        else if key == ArrowDown || key == ArrowUp then
          && change.None? && !failed
          && input == old(input) && open == old(open)
          && highlightIndex == MoveHighlight(key, old(highlightIndex), |f|)
        else if key == Enter then
          if 0 <= old(highlightIndex) < |f| then
            && change == Some(Some(f[old(highlightIndex)].value)) && !failed
            && input == f[old(highlightIndex)].labelText && !open
            && highlightIndex == old(highlightIndex)
          else
            && change.None? && failed
            && input == old(input) && open == old(open) && highlightIndex == old(highlightIndex)
        else
          && change.None? && !failed
          && input == old(input) && highlightIndex == old(highlightIndex)
          && open == (key != Escape)
    {
      var filtered := Suggestions(statutes, input, value);
      change, failed := None, false;
      if !open || |filtered| == 0 {
        if key == Escape {
          open := false;
        }
        return;
      }
      if key == ArrowDown || key == ArrowUp {
        highlightIndex := MoveHighlight(key, highlightIndex, |filtered|);
      } else if key == Enter {
        if 0 <= highlightIndex < |filtered| {
          change := HandleSelect(filtered[highlightIndex]);
        } else {
          failed := true;
        }
      } else if key == Escape {
        open := false;
      }
    }
  }

  /** Any run of arrow keys from a highlighted suggestion keeps the highlight on a listed
      suggestion. */
  lemma {:induction false} ArrowsStayInRange(keys: seq<Key>, i: int, len: int)
    requires forall k :: 0 <= k < |keys| ==> keys[k] == ArrowDown || keys[k] == ArrowUp
    requires 0 <= i < len
    ensures 0 <= MoveAll(keys, i, len) < len
    decreases |keys|
  {
    if keys != [] {
      ArrowsStayInRange(keys[1..], MoveHighlight(keys[0], i, len), len);
    }
  }

  /** The highlight after a run of arrow keys. */
  function MoveAll(keys: seq<Key>, i: int, len: int): int
    requires forall k :: 0 <= k < |keys| ==> keys[k] == ArrowDown || keys[k] == ArrowUp
    decreases |keys|
  {
    if keys == [] then i else MoveAll(keys[1..], MoveHighlight(keys[0], i, len), len)
  }
}
