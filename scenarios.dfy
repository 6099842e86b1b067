/** Client code that drives the two components through event sequences and
    asserts what the handlers' contracts alone guarantee. Each scenario is a
    verified statement about every run of that sequence. */
module Scenarios {
  import opened Characters
  import opened Selection
  import opened Navigation
  import Autocomplete
  import LegacyAutocomplete

  /** Search "rick", get two results, highlight the first, select it with
      Enter, then remove it from the selection. */
  method SearchSelectRemove() {
    var url := "https://rickandmortyapi.com/api/episode/1";
    var rick := RawCharacter(1, "Rick Sanchez", "rick.png", [url]);
    var prime := RawCharacter(2, "Rick Prime", "prime.png", []);
    var w := new Autocomplete.RickAndMortyAutocomplete([]);

    w.InputChange("rick");
    assert w.loading && w.inFlight == ["rick"] && !w.ListVisible();
    w.FetchResolved(0, Fetched([rick, prime]));
    assert |w.characters| == 2 && w.selectedIndex == -1 && w.ListVisible();
    assert w.characters[0].id == 1 && w.characters[1].id == 2;
    EpisodeUrlBecomesId();
    assert w.characters[0].episode == ["1"];

    w.KeyDown(ArrowDown);
    assert w.selectedIndex == 0;
    var first := w.characters[0];
    w.KeyDown(Enter);
    assert w.value == [first] && w.emitted == [[first]];
    assert w.input == "" && w.characters == [] && w.selectedIndex == -1;

    w.Remove(first);
    assert w.value == [] && w.emitted == [[first], []];
  }

  /** The directory's episode URL becomes the episode id "1". */
  lemma EpisodeUrlBecomesId()
    ensures LastSegment("https://rickandmortyapi.com/api/episode/1") == "1"
  {
  }

  /** On three results and no highlight, four ArrowDown presses highlight
      0, 1, 2, 2 and four ArrowUp presses then highlight 1, 0, -1, -1. */
  method ArrowWalk(a: RawCharacter, b: RawCharacter, c: RawCharacter) {
    var w := new Autocomplete.RickAndMortyAutocomplete([]);
    w.InputChange("s");
    w.FetchResolved(0, Fetched([a, b, c]));
    assert |w.characters| == 3 && w.selectedIndex == -1;
    w.KeyDown(ArrowDown); assert w.selectedIndex == 0;
    w.KeyDown(ArrowDown); assert w.selectedIndex == 1;
    w.KeyDown(ArrowDown); assert w.selectedIndex == 2;
    w.KeyDown(ArrowDown); assert w.selectedIndex == 2;
    w.KeyDown(ArrowUp); assert w.selectedIndex == 1;
    w.KeyDown(ArrowUp); assert w.selectedIndex == 0;
    w.KeyDown(ArrowUp); assert w.selectedIndex == -1;
    w.KeyDown(ArrowUp); assert w.selectedIndex == -1;
  }

  /** Two queries in flight whose answers arrive newest first: the older
      answer overwrites the newer one and is shown under the newer query. */
  method StaleAnswerIsShown(older: seq<RawCharacter>, newer: seq<RawCharacter>) {
    var w := new Autocomplete.RickAndMortyAutocomplete([]);
    w.InputChange("ri");
    w.InputChange("ric");
    assert w.inFlight == ["ri", "ric"];
    w.FetchResolved(1, Fetched(newer));
    assert w.characters == MapResults(newer) && w.inFlight == ["ri"];
    w.FetchResolved(0, Fetched(older));
    assert w.input == "ric" && w.characters == MapResults(older);
    assert w.ListVisible();
  }

  /** The highlight survives a new search: with a highlight on the third of
      three results, a new query whose answer has one item leaves index 2,
      Enter then does nothing, and ArrowUp moves to 1, still past the list. */
  method HighlightOutlivesResults(a: RawCharacter, b: RawCharacter, c: RawCharacter) {
    var w := new Autocomplete.RickAndMortyAutocomplete([]);
    w.InputChange("s");
    w.FetchResolved(0, Fetched([a, b, c]));
    w.KeyDown(ArrowDown);
    w.KeyDown(ArrowDown);
    w.KeyDown(ArrowDown);
    assert w.selectedIndex == 2;
    w.InputChange("su");
    w.FetchResolved(0, Fetched([a]));
    assert w.selectedIndex == 2 && |w.characters| == 1;
    w.KeyDown(Enter);
    assert w.selectedIndex == 2 && w.value == [] && w.emitted == [];
    w.KeyDown(ArrowUp);
    assert w.selectedIndex == 1 && |w.characters| == 1;
  }

  /** A failed search keeps the results an earlier answer left and hides
      the list behind the error until the next query clears it. */
  method FailureKeepsResults(items: seq<RawCharacter>) {
    var w := new Autocomplete.RickAndMortyAutocomplete([]);
    w.InputChange("mor");
    w.InputChange("mort");
    assert w.characters == [] && w.inFlight == ["mor", "mort"];
    w.FetchResolved(0, Fetched(items));
    assert w.characters == MapResults(items) && w.inFlight == ["mort"];
    w.FetchResolved(0, FetchFailed);
    assert w.characters == MapResults(items) && w.error == FetchErrorMessage && !w.ListVisible();
    w.InputChange("morty");
    assert w.error == "" && w.loading;
  }

  /** Remove writes the new selection into the results: with A and B
      selected and the results of a search shown, removing A replaces the
      visible results with [B]. */
  method RemoveShowsSelection(a: RawCharacter, b: RawCharacter, items: seq<RawCharacter>)
    requires a.id != b.id
  {
    var ca, cb := FromRaw(a), FromRaw(b);
    var w := new Autocomplete.RickAndMortyAutocomplete([ca, cb]);
    w.InputChange("s");
    w.FetchResolved(0, Fetched(items));
    assert w.characters == MapResults(items) && w.ListVisible();
    w.Remove(ca);
    RemoveOnlyOccurrence([], ca, [cb]);
    assert w.value == [cb] && w.emitted == [[cb]];
    assert w.characters == [cb] && w.ListVisible();
  }

  /** The current component ignores a character with id 0; the older one
      selects it and unselects it again. */
  method ZeroIdCharacter() {
    var ghostly := Character(0, "Nobody", "", []);
    var w := new Autocomplete.RickAndMortyAutocomplete([]);
    w.Select(ghostly);
    assert w.value == [] && w.emitted == [];

    var v := new LegacyAutocomplete.RickAndMortyAutocomplete([]);
    v.Select(ghostly);
    assert v.value == [ghostly] && v.characters == [ghostly];
    v.Select(ghostly);
    assert v.value == [] && v.emitted == [[ghostly], []] && v.characters == [];
  }

  /** In the older component, selecting A then B gives [A, B], and selecting
      A again gives [B]. */
  method LegacyToggleOrder(a: Character, b: Character)
    requires a.id != b.id
  {
    var v := new LegacyAutocomplete.RickAndMortyAutocomplete([]);
    v.Select(a);
    v.Select(b);
    ToggleOrder(a, b);
    assert v.value == [a, b];
    v.Select(a);
    assert v.value == [b];
  }
}
