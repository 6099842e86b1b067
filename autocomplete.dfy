/** The current autocomplete component (src/components/RickAndMortyAutocomplete.tsx)
    as a state machine. Each method is one event handler together with the
    `[input]` effect it triggers, run to completion:
    - `InputChange`: the input's `onChange`;
    - `InputEffect`: the effect, which runs only when `input` changed;
    - `FetchResolved`: a request issued by the effect settles;
    - `KeyDown`: Enter, ArrowDown and ArrowUp on the input;
    - `Select`: a click on a list item, or Enter on the input;
    - `Remove`: the remove button of a selected character.
    The caller owns `value`; as the application wires it, every list handed
    to `onChange` becomes the next `value`. */
module Autocomplete {
  import opened Characters
  import opened Selection
  import opened Navigation

  class RickAndMortyAutocomplete {
    /** The query text (`input` state). */
    var input: string
    /** The results list (`characters` state); toggle and remove also write
        the new selection into it. */
    var characters: seq<Character>
    /** The keyboard highlight (`selectedIndex` state); -1 is none. */
    var selectedIndex: int
    var loading: bool
    var error: string
    /** The `value` prop: the caller's selection. */
    var value: seq<Character>
    /** Every list passed to `onChange`, oldest first. */
    var emitted: seq<seq<Character>>
    /** The query text of every issued request that has not settled yet, in
        the order they were issued. */
    var inFlight: seq<string>

    ghost predicate Valid()
      reads this
    {
      && -1 <= selectedIndex
      && (loading ==> inFlight != [])
      && (error == "" || error == FetchErrorMessage)
      && (emitted != [] ==> value == emitted[|emitted| - 1])
    }

    /** Mounting with the caller's selection: empty query, no results, no
        highlight. The mount-time effect sees an empty query and only
        clears the (already empty) results. */
    constructor (initial: seq<Character>)
      ensures Valid()
      ensures input == "" && characters == [] && selectedIndex == -1
      ensures !loading && error == ""
      ensures value == initial && emitted == [] && inFlight == []
    {
      input, characters, selectedIndex := "", [], -1;
      loading, error := false, "";
      value, emitted, inFlight := initial, [], [];
    }

    /** The list is rendered only for a non-empty query, when nothing is
        loading and no error is shown. */
    predicate ListVisible()
      reads this
    {
      input != "" && !loading && error == ""
    }

    /** `useEffect(..., [input, apiUrl])`: does nothing when `input` equals
        the text it had before the handler ran; an empty query clears the
        results and issues nothing; any other query shows loading, clears
        the error and issues a request for the query. */
    method InputEffect(previous: string)
      requires Valid()
      modifies this`characters, this`loading, this`error, this`inFlight
      ensures Valid()
      ensures input == previous ==> unchanged(this)
      ensures input != previous && input == "" ==>
        characters == [] && loading == old(loading) && error == old(error) && inFlight == old(inFlight)
      ensures input != previous && input != "" ==>
        characters == old(characters) && loading && error == "" && inFlight == old(inFlight) + [input]
    {
      if input == previous {
        return;
      }
      if input == "" {
        characters := [];
        return;
      }
      loading := true;
      error := "";
      inFlight := inFlight + [input];
    }

    /** `handleInputChange`: records the text and empties the results, then
        the effect runs. The highlight is kept. */
    method InputChange(text: string)
      requires Valid()
      modifies this`input, this`characters, this`loading, this`error, this`inFlight
      ensures Valid()
      ensures input == text && characters == []
      ensures text == old(input) || text == "" ==>
        loading == old(loading) && error == old(error) && inFlight == old(inFlight)
      ensures text != old(input) && text != "" ==>
        loading && error == "" && inFlight == old(inFlight) + [text]
      ensures text != old(input) ==> !ListVisible()
    {
      var previous := input;
      input := text;
      characters := [];
      InputEffect(previous);
    }

    /** The request issued `k`-th among those still in flight settles. Success
        replaces the results with the mapped items, failure shows the error
        and keeps the results; either way loading ends. Nothing compares the
        request's query with the current `input`. */
    method FetchResolved(k: nat, outcome: FetchOutcome)
      requires Valid()
      requires k < |inFlight|
      modifies this`characters, this`loading, this`error, this`inFlight
      ensures Valid()
      ensures inFlight == old(inFlight[..k] + inFlight[k + 1..])
      ensures !loading
      ensures outcome.Fetched? ==> characters == MapResults(outcome.results) && error == old(error)
      ensures outcome.FetchFailed? ==> characters == old(characters) && error == FetchErrorMessage
      ensures outcome.FetchFailed? ==> !ListVisible()
    {
      match outcome {
        case Fetched(results) =>
          characters := MapResults(results);
        case FetchFailed =>
          error := FetchErrorMessage;
      }
      loading := false;
      inFlight := inFlight[..k] + inFlight[k + 1..];
    }

    /** What a toggle of `c` does when `c` passes the guard: the toggled list
        goes to `onChange` once and becomes the selection, the query is
        emptied and the highlight reset. The handler writes the list into the
        results; the effect then empties them unless the query was already
        empty. */
    twostate predicate ToggledBy(c: Character)
      reads this
    {
      && value == Toggled(old(value), c)
      && emitted == old(emitted) + [value]
      && input == "" && selectedIndex == -1
      && characters == (if old(input) == "" then value else [])
      && loading == old(loading) && error == old(error) && inFlight == old(inFlight)
    }

    /** `handleCharacterSelect`: a character with id 0 or an empty name is
        ignored; any other is toggled in the selection by id. */
    method Select(c: Character)
      requires Valid()
      modifies this
      ensures Valid()
      ensures !IsSelectable(c) ==> unchanged(this)
      ensures IsSelectable(c) ==> ToggledBy(c) && !ListVisible()
    {
      if IsSelectable(c) {
        var next := Toggled(value, c);
        characters := next;
        value, emitted := next, emitted + [next];
        var previous := input;
        input := "";
        selectedIndex := -1;
        InputEffect(previous);
      }
    }

    /** `handleKeyDown`: Enter toggles the highlighted result when the
        highlight is inside the list and otherwise only blurs; the arrows
        move the highlight, clamped to [-1, |characters| - 1] on the side
        they move towards; other keys do nothing. */
    method KeyDown(key: Key)
      requires Valid()
      modifies this
      ensures Valid()
      ensures key.Enter? && !(0 <= old(selectedIndex) < |old(characters)|) ==> unchanged(this)
      ensures key.Enter? && 0 <= old(selectedIndex) < |old(characters)| ==>
        var c := old(characters[selectedIndex]);
        if IsSelectable(c) then ToggledBy(c) else unchanged(this)
      ensures key.ArrowDown? ==> selectedIndex == ArrowDownIndex(old(selectedIndex), |characters|)
      ensures key.ArrowUp? ==> selectedIndex == ArrowUpIndex(old(selectedIndex))
      ensures key.ArrowDown? || key.ArrowUp? ==>
        input == old(input) && characters == old(characters) && value == old(value)
        && emitted == old(emitted) && loading == old(loading) && error == old(error)
        && inFlight == old(inFlight)
      ensures key.OtherKey? ==> unchanged(this)
    {
      match key {
        case Enter =>
          if 0 <= selectedIndex < |characters| {
            Select(characters[selectedIndex]);
          }
        case ArrowDown =>
          selectedIndex := ArrowDownIndex(selectedIndex, |characters|);
        case ArrowUp =>
          selectedIndex := ArrowUpIndex(selectedIndex);
        case OtherKey(_) =>
      }
    }

    /** `handleRemoveCharacter`: drops every selected element with `c.id`,
        hands the result to `onChange` and writes it into the results. The
        query and the highlight stay as they are. */
    method Remove(c: Character)
      requires Valid()
      modifies this`characters, this`value, this`emitted
      ensures Valid()
      ensures value == RemoveById(old(value), c.id)
      ensures emitted == old(emitted) + [value]
      ensures characters == value
      ensures !HasId(value, c.id)
    {
      var next := RemoveById(value, c.id);
      characters := next;
      value, emitted := next, emitted + [next];
    }
  }
}
