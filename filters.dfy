/** The project filter: a row of filter buttons above a grid of project cards.
    Clicking a button marks it active and shows exactly the cards whose
    `data-tags` carry the button's key. DOM nodes are modelled as records held
    in arrays, one array per `querySelectorAll` result. */
module Filters {
  import opened Wrappers
  import opened Text

  /** A `.project-card`: its `data-tags` attribute and whether its
      `style.display` is "" (displayed) rather than "none". */
  datatype Item = Item(tags: Option<string>, displayed: bool)

  /** A `.filter-btn`: its `data-filter` value and whether it has class `active`. */
  datatype Button = Button(filter: Option<string>, active: bool)

  /** The per-card rule: `key === "all" || tags.includes(key)` where `tags` is
      `(data-tags || "").split(/\s+/)`. Stated here through the words of the tag
      text instead of the split pieces. */
  function Shows(key: string, tags: Option<string>, cs: CharSets): (show: bool)
    ensures key == "all" ==> show
    ensures key != "all" && key != "" ==> (show <==> IsWord(tags.GetOr(""), key, cs.isSpace))
    ensures key == "" ==> (show <==> var t := tags.GetOr(""); t == "" || cs.isSpace(t[0]) || cs.isSpace(t[|t| - 1]))
  {
    var text := tags.GetOr("");
    if key == "" then
      SplitEmpty(text, cs.isSpace);
      key in Split(text, cs.isSpace)
    else
      SplitWords(text, key, cs.isSpace);
      key == "all" || key in Split(text, cs.isSpace)
  }

  /** A card without `data-tags` is shown by "all" only (any key a button can
      produce is non-empty). */
  lemma MissingTagsShowOnlyForAll(key: string, cs: CharSets)
    requires key != ""
    ensures Shows(key, None, cs) <==> key == "all"
  {
  }

  /** The key a button applies: its `data-filter`, or "all" when that is
      missing or empty. */
  function FilterKey(filter: Option<string>): (key: string)
    ensures key != ""
    ensures filter.Some? && filter.value != "" ==> key == filter.value
    ensures filter.None? || filter.value == "" ==> key == "all"
  {
    if filter.Some? && filter.value != "" then filter.value else "all"
  }

  /** `setActive(btn)`: every button's `active` class is toggled on for the
      clicked one and off for the rest. */
  method SetActive(buttons: array<Button>, clicked: nat)
    requires clicked < buttons.Length
    modifies buttons
    ensures forall j :: 0 <= j < buttons.Length ==> buttons[j].filter == old(buttons[j].filter)
    ensures forall j :: 0 <= j < buttons.Length ==> (buttons[j].active <==> j == clicked)
  {
    for j := 0 to buttons.Length
      invariant forall k :: 0 <= k < j ==> buttons[k] == old(buttons[k]).(active := k == clicked)
      invariant forall k :: j <= k < buttons.Length ==> buttons[k] == old(buttons[k])
    {
      buttons[j] := buttons[j].(active := j == clicked);
    }
  }

  /** `applyFilter(key)`: each card's display is recomputed from its own tags
      and `key` alone; nothing else about the cards changes. */
  method ApplyFilter(items: array<Item>, key: string, cs: CharSets)
    modifies items
    ensures forall j :: 0 <= j < items.Length ==> items[j].tags == old(items[j].tags)
    ensures forall j :: 0 <= j < items.Length ==> items[j].displayed == Shows(key, old(items[j].tags), cs)
  {
    for j := 0 to items.Length
      invariant forall k :: 0 <= k < j ==> items[k] == old(items[k]).(displayed := Shows(key, old(items[k].tags), cs))
      invariant forall k :: j <= k < items.Length ==> items[k] == old(items[k])
    {
      items[j] := items[j].(displayed := Shows(key, items[j].tags, cs));
    }
  }

  /** A click on button `clicked`: mark it active, then filter the grid by the
      key it carries. The applied key is never empty. */
  method FilterClick(buttons: array<Button>, items: array<Item>, clicked: nat, cs: CharSets)
    returns (key: string)
    requires clicked < buttons.Length
    modifies buttons, items
    ensures key == FilterKey(old(buttons[clicked].filter)) && key != ""
    ensures forall j :: 0 <= j < buttons.Length ==> buttons[j].filter == old(buttons[j].filter)
    ensures forall j :: 0 <= j < buttons.Length ==> (buttons[j].active <==> j == clicked)
    ensures forall j :: 0 <= j < items.Length ==> items[j].tags == old(items[j].tags)
    ensures forall j :: 0 <= j < items.Length ==> items[j].displayed == Shows(key, old(items[j].tags), cs)
  {
    SetActive(buttons, clicked);
    key := FilterKey(buttons[clicked].filter);
    ApplyFilter(items, key, cs);
  }

  /** The tag text "web  ui" under the standard classes: both its words show
      the card. */
  lemma ExampleTagsShown(cs: CharSets)
    requires Conforming(cs)
    ensures Shows("ui", Some("web  ui"), cs) && Shows("web", Some("web  ui"), cs)
  {
    var s := "web  ui";
    assert !cs.isSpace('w') && !cs.isSpace('e') && !cs.isSpace('b') && !cs.isSpace('u') && !cs.isSpace('i');
    assert DelimitedAt(s, "ui", 5, cs.isSpace) by {
      assert s[5..7] == "ui";
    }
    assert DelimitedAt(s, "web", 0, cs.isSpace) by {
      assert s[0..3] == "web";
    }
  }

  /** The tag text "web  ui" splits into its two words. */
  lemma ExampleSplit(cs: CharSets)
    requires Conforming(cs)
    ensures Split("web  ui", cs.isSpace) == ["web", "ui"]
  {
    var s := "web  ui";
    assert !cs.isSpace('w') && !cs.isSpace('e') && !cs.isSpace('b') && !cs.isSpace('u') && !cs.isSpace('i');
    assert FirstSpace(s, cs.isSpace) == 3;
    assert RunEnd(s, 3, cs.isSpace) == 5;
    assert s[5..] == "ui" && s[..3] == "web";
    assert FirstSpace("ui", cs.isSpace) == 2;
  }

  /** The tag text "web  ui": a prefix of a word and a phrase of two words do
      not show the card. */
  lemma ExampleTagsHidden(cs: CharSets)
    requires Conforming(cs)
    ensures !Shows("we", Some("web  ui"), cs)
    ensures !Shows("web ui", Some("web  ui"), cs)
  {
    ExampleSplit(cs);
  }
}
