/** The older copy of the component (src/RickAndMortyAutocomplete.tsx). It
    fetches and maps results exactly as the current one does, but it has no
    keyboard highlight (Enter only blurs the input) and its toggle has no
    guard on the character's id or name. The caller's `value` is again
    replaced by every list handed to `onChange`. */
module LegacyAutocomplete {
  import opened Characters
  import opened Selection
  import opened Navigation

  class RickAndMortyAutocomplete {
    var input: string
    var characters: seq<Character>
    var loading: bool
    var error: string
    var value: seq<Character>
    var emitted: seq<seq<Character>>
    var inFlight: seq<string>

    ghost predicate Valid()
      reads this
    {
      && (loading ==> inFlight != [])
      && (error == "" || error == FetchErrorMessage)
      && (emitted != [] ==> value == emitted[|emitted| - 1])
    }

    constructor (initial: seq<Character>)
      ensures Valid()
      ensures input == "" && characters == [] && !loading && error == ""
      ensures value == initial && emitted == [] && inFlight == []
    {
      input, characters := "", [];
      loading, error := false, "";
      value, emitted, inFlight := initial, [], [];
    }

    /** The condition around the results list. */
    predicate ListVisible()
      reads this
    {
      input != "" && !loading && error == ""
    }

    /** `useEffect(..., [input])`: nothing when `input` is unchanged, clears
        the results for an empty query, else shows loading, clears the error
        and issues a request for the query. */
    method InputEffect(previous: string)
      requires Valid()
      modifies this`characters, this`loading, this`error, this`inFlight
      ensures Valid()
      ensures input == previous ==> unchanged(this)
      ensures input != previous && input == "" ==>
        characters == [] && loading == old(loading) && error == old(error) && inFlight == old(inFlight)
      ensures input != previous && input != "" ==>
        characters == old(characters) && loading && error == "" && inFlight == old(inFlight) + [input]
    {
      if input == previous {
        return;
      }
      if input == "" {
        characters := [];
        return;
      }
      loading := true;
      error := "";
      inFlight := inFlight + [input];
    }

    /** `handleInputChange`: records the text, empties the results, then the
        effect runs. */
    method InputChange(text: string)
      requires Valid()
      modifies this`input, this`characters, this`loading, this`error, this`inFlight
      ensures Valid()
      ensures input == text && characters == []
      ensures text == old(input) || text == "" ==>
        loading == old(loading) && error == old(error) && inFlight == old(inFlight)
      ensures text != old(input) && text != "" ==>
        loading && error == "" && inFlight == old(inFlight) + [text]
      ensures text != old(input) ==> !ListVisible()
    {
      var previous := input;
      input := text;
      characters := [];
      InputEffect(previous);
    }

    /** A request still in flight settles: success replaces the results,
        failure shows the error and keeps them, loading ends either way,
        whatever query the request was for. */
    method FetchResolved(k: nat, outcome: FetchOutcome)
      requires Valid()
      requires k < |inFlight|
      modifies this`characters, this`loading, this`error, this`inFlight
      ensures Valid()
      ensures inFlight == old(inFlight[..k] + inFlight[k + 1..])
      ensures !loading
      ensures outcome.Fetched? ==> characters == MapResults(outcome.results) && error == old(error)
      ensures outcome.FetchFailed? ==> characters == old(characters) && error == FetchErrorMessage
      ensures outcome.FetchFailed? ==> !ListVisible()
    {
      match outcome {
        case Fetched(results) =>
          characters := MapResults(results);
        case FetchFailed =>
          error := FetchErrorMessage;
      }
      loading := false;
      inFlight := inFlight[..k] + inFlight[k + 1..];
    }

    /** `handleKeyDown`: Enter only blurs the input and no other key is
        handled, so no modelled state changes. */
    method KeyDown(key: Key)
      ensures unchanged(this)
    {
    }

    /** `handleCharacterSelect`, without a guard: `c` is appended when no
        selected element has its id and every element with its id is removed
        otherwise. The same list goes to `onChange` and into the results,
        the query is emptied, and the effect then empties the results unless
        the query was already empty. */
    method Select(c: Character)
      requires Valid()
      modifies this
      ensures Valid()
      ensures value == Toggled(old(value), c)
      ensures emitted == old(emitted) + [value]
      ensures input == "" && !ListVisible()
      ensures characters == (if old(input) == "" then value else [])
      ensures loading == old(loading) && error == old(error) && inFlight == old(inFlight)
    {
      var index := FindIndex(value, c.id);
      var next;
      if index == -1 {
        next := value + [c];
      } else {
        next := RemoveById(value, c.id);
      }
      characters := next;
      value, emitted := next, emitted + [next];
      var previous := input;
      input := "";
      InputEffect(previous);
    }

    /** `handleRemoveCharacter`: drops every selected element with `c.id`,
        hands the result to `onChange` and writes it into the results. */
    method Remove(c: Character)
      requires Valid()
      modifies this`characters, this`value, this`emitted
      ensures Valid()
      ensures value == RemoveById(old(value), c.id)
      ensures emitted == old(emitted) + [value]
      ensures characters == value
      ensures !HasId(value, c.id)
    {
      var next := RemoveById(value, c.id);
      characters := next;
      value, emitted := next, emitted + [next];
    }
  }
}
