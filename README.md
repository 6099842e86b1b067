# Rick and Morty character autocomplete: a Dafny model

The repository holds a React search-and-select input. The user types a
query, the component asks the Rick and Morty character directory for
matching characters, and it shows them in a list. The user then toggles
characters into a selection that belongs to the caller and is handed back
through `onChange`. There are two copies of the component:

- `src/components/RickAndMortyAutocomplete.tsx` is the current one. It has
  keyboard navigation (ArrowDown, ArrowUp, Enter) and a guard against
  characters without an id or a name.
- `src/RickAndMortyAutocomplete.tsx` is the older one. Enter only blurs the
  input, and its toggle has no guard.

Without React and the DOM, each copy is a small record: `input`, the results
`characters`, `selectedIndex` (current copy only), `loading`, `error`, the
caller's `value`, and the requests still in flight. Each event handler,
together with the `[input]` effect it triggers, is one step on that record.
The model has these parts:

- `characters.dfy` (module `Characters`) holds the records and the helpers
  both copies share. These are the episode-id extraction
  (`split('/').at(-1)`), the mapping of the directory's raw results, and the
  episode-count label with its decimal numeral.
- `selection.dfy` (module `Selection`) holds the list computations of the
  toggle and the remove: `findIndex` by id, `filter` by id, and the toggle
  that chooses between appending and removing.
- `navigation.dfy` (module `Navigation`) holds the keys and the index
  arithmetic of ArrowDown and ArrowUp.
- `autocomplete.dfy` (module `Autocomplete`) models the current component
  as the class `RickAndMortyAutocomplete`, with one method per handler.
- `legacy_autocomplete.dfy` (module `LegacyAutocomplete`) models the older
  component the same way.
- `scenarios.dfy` (module `Scenarios`) holds client methods. They drive the
  classes through event sequences and assert what the contracts guarantee:
  search, highlight, select and remove; the 0, 1, 2, 2 / 1, 0, -1, -1 arrow
  walk; a stale answer shown under a newer query; a highlight that outlives
  its results; a failure that keeps the old results; a remove that shows
  the selection as the results; a character with id 0; toggle order in the
  older copy.

Modelling choices:

- The HTTP request is an event. The effect records the query of each
  request it issues in `inFlight`. `FetchResolved(k, outcome)` settles any
  of those requests, in any order, with either the raw `results` or a
  failure. A response the mapping cannot read fails in the same `catch`
  block, so it is a failure here too.
- `onChange` is wired as `src/App.tsx` wires it: the caller stores the list
  as its next `value`. Every list passed is also appended to `emitted`, so
  "called exactly once, with this list" can be stated.
- The effect runs only when `input` differs from its value before the
  handler. A toggle writes the new selection into `characters` and empties
  `input`. When the query was not already empty, the effect then empties
  `characters` again.
- An `id` is falsy only when it is 0, because ids are integers. A `name` is
  falsy only when it is empty.

The code differs from the natural design of such a component in four
places. The model follows the code in all four, and the scenarios show each
one:

- No stale answers are discarded. Any answer that arrives replaces the
  results, even when it belongs to an older query.
- `selectedIndex` is reset only by a valid toggle. It is not reset when the
  results change.
- A failed request leaves the previous results in place.
- Toggle and remove write the selection into the results list.

## Model

| member | source | states |
|---|---|---|
| `Characters.LastSegment` | src/components/RickAndMortyAutocomplete.tsx:48 | the episode id is the longest '/'-free suffix of the URL: it contains no '/', it ends the URL, it is the whole URL or follows a '/', and it is the whole URL when there is no '/' |
| `Characters.LastSegmentOfJoin` | src/RickAndMortyAutocomplete.tsx:44 | for any prefix and any '/'-free segment, the id of `prefix + "/" + segment` is the segment |
| `Characters.EpisodeIds` | src/components/RickAndMortyAutocomplete.tsx:48 | the episode list keeps its length and order, and each entry becomes its URL's last segment |
| `Characters.FromRaw` | src/components/RickAndMortyAutocomplete.tsx:44-49 | a mapped character keeps id, name and image, and its episodes are exactly the URLs' last segments, in order: as many as URLs, none containing '/' |
| `Characters.MapResults` | src/components/RickAndMortyAutocomplete.tsx:43-50 | the new results list has one mapped character per raw item, in the directory's order |
| `Characters.DecimalString` | src/components/RickAndMortyAutocomplete.tsx:201 | the count printed in the label is a non-empty string of digits with no leading zero except "0" |
| `Characters.DecimalRoundTrip` | src/components/RickAndMortyAutocomplete.tsx:201 | the printed numeral reads back as the count |
| `Characters.EpisodeLabel` | src/components/RickAndMortyAutocomplete.tsx:201 | the label starts with a numeral that reads back as the count, continues with " Episode", and then ends, except that one more character, an 's', follows exactly when the count exceeds 1, so 0 gives "0 Episode" and 1 gives "1 Episode" (the older copy has the same label at src/RickAndMortyAutocomplete.tsx:149) |
| `Selection.FindIndex` | src/components/RickAndMortyAutocomplete.tsx:121 | `findIndex` by id gives -1 exactly when no element has the id; otherwise it gives the first position holding it |
| `Selection.RemoveById` | src/components/RickAndMortyAutocomplete.tsx:125 | the filter keeps exactly the elements whose id differs, and never lengthens the list |
| `Selection.RemoveByIdConcat` | src/RickAndMortyAutocomplete.tsx:78 | filtering a concatenation filters each part, so the kept elements keep their relative order |
| `Selection.RemoveByIdAbsent` | src/RickAndMortyAutocomplete.tsx:91 | a list without the id passes through the filter unchanged |
| `Selection.RemoveOnlyOccurrence` | src/components/RickAndMortyAutocomplete.tsx:140 | removing the only element with an id leaves the elements before it followed by the elements after it |
| `Selection.Toggled` | src/components/RickAndMortyAutocomplete.tsx:121-125 | the toggled list appends `c` when its id is absent and drops every element with its id when present; membership of the id flips, and no other element comes or goes |
| `Selection.ToggleKeepsSelectable` | src/components/RickAndMortyAutocomplete.tsx:120 | the guard `character && character.id && character.name` keeps id 0 and an empty name out: when the selection and `c` pass it, every element of the toggled list passes it |
| `Selection.ToggleTwiceRestores` | src/RickAndMortyAutocomplete.tsx:72-80 | toggling an unselected character twice gives back the original selection |
| `Selection.ToggleOrder` | src/RickAndMortyAutocomplete.tsx:72-80 | toggling A then B from empty gives [A, B]; toggling A again gives [B] |
| `Navigation.ArrowDownIndex` | src/components/RickAndMortyAutocomplete.tsx:78-79 | ArrowDown moves one down but never past the last item; from -1 or above it stays at or above -1, and on an empty list it stays at -1 |
| `Navigation.ArrowUpIndex` | src/components/RickAndMortyAutocomplete.tsx:90-91 | ArrowUp moves one up but never above -1: the result is the larger of prev - 1 and -1 |
| `Navigation.ArrowsKeepRange` | src/components/RickAndMortyAutocomplete.tsx:76-99 | from an index in [-1, n - 1], both arrows stay in [-1, n - 1] |
| `Navigation.DownPressesFromNone` | src/components/RickAndMortyAutocomplete.tsx:76-87 | from no highlight, k ArrowDown presses give min(k - 1, n - 1) |
| `Navigation.UpPressesFrom` | src/components/RickAndMortyAutocomplete.tsx:88-99 | from any index at or above -1, k ArrowUp presses give max(start - k, -1) |
| `Autocomplete.RickAndMortyAutocomplete.constructor` | src/components/RickAndMortyAutocomplete.tsx:18-23 | the component mounts with an empty query, no results, highlight -1, not loading, no error and the caller's selection |
| `Autocomplete.RickAndMortyAutocomplete.InputEffect` | src/components/RickAndMortyAutocomplete.tsx:28-59 | the effect changes nothing when `input` is unchanged; an empty query clears the results and issues no request; a new query sets loading, clears the error and issues one request for that query |
| `Autocomplete.RickAndMortyAutocomplete.InputChange` | src/components/RickAndMortyAutocomplete.tsx:61-64 | typing sets the query and empties the results, keeps the highlight, and starts one fetch exactly when the text is new and non-empty; after any new text the list (shown only for a non-empty query, not loading, no error: line 174) is hidden |
| `Autocomplete.RickAndMortyAutocomplete.FetchResolved` | src/components/RickAndMortyAutocomplete.tsx:34-55 | a request settling removes it from the requests in flight and ends loading. Success replaces the results with the mapped items and leaves the error as it was. Failure keeps the results, shows "Error fetching characters" and so hides the list, which line 174 shows only without an error. No check compares the request's query with the current one |
| `Autocomplete.RickAndMortyAutocomplete.Select` | src/components/RickAndMortyAutocomplete.tsx:119-137 | a character with id 0 or an empty name changes nothing and calls no `onChange`. Otherwise `onChange` is called once with the toggled list, which becomes the selection; the query is emptied, the highlight goes to -1, and the list is hidden |
| `Autocomplete.RickAndMortyAutocomplete.KeyDown` | src/components/RickAndMortyAutocomplete.tsx:66-101 | Enter toggles `characters[selectedIndex]` only when that index is inside the list, and otherwise changes nothing. ArrowDown and ArrowUp only move the highlight. Other keys change nothing |
| `Autocomplete.RickAndMortyAutocomplete.Remove` | src/components/RickAndMortyAutocomplete.tsx:139-143 | remove filters the selection by id and passes the result to `onChange` once. The same list is written into the results. The query and the highlight are untouched |
| `LegacyAutocomplete.RickAndMortyAutocomplete.constructor` | src/RickAndMortyAutocomplete.tsx:18-21 | the older component mounts with an empty query, no results, not loading, no error and the caller's selection |
| `LegacyAutocomplete.RickAndMortyAutocomplete.InputEffect` | src/RickAndMortyAutocomplete.tsx:24-55 | the effect runs only on a changed query; an empty query clears the results and a non-empty one sets loading, clears the error and issues one request |
| `LegacyAutocomplete.RickAndMortyAutocomplete.InputChange` | src/RickAndMortyAutocomplete.tsx:57-60 | typing sets the query and empties the results, and starts one fetch exactly when the text is new and non-empty; after any new text the list (line 127's condition) is hidden |
| `LegacyAutocomplete.RickAndMortyAutocomplete.FetchResolved` | src/RickAndMortyAutocomplete.tsx:30-52 | success replaces the results with the mapped items, failure keeps them, shows the error and so hides the list (line 127), loading ends either way, with no stale check |
| `LegacyAutocomplete.RickAndMortyAutocomplete.KeyDown` | src/RickAndMortyAutocomplete.tsx:62-69 | no key changes any modelled state; Enter only blurs |
| `LegacyAutocomplete.RickAndMortyAutocomplete.Select` | src/RickAndMortyAutocomplete.tsx:71-88 | with no guard, the selection becomes the toggled list by id. `onChange` receives that same list once, and the handler writes it into the results. The query is emptied, which hides the list, and the effect then empties the results unless the query was already empty |
| `LegacyAutocomplete.RickAndMortyAutocomplete.Remove` | src/RickAndMortyAutocomplete.tsx:90-94 | remove filters the selection by id, passes it to `onChange` once and overwrites the results with it |
| `Scenarios.EpisodeUrlBecomesId` | src/RickAndMortyAutocomplete.tsx:44 | the directory's URL ".../api/episode/1" becomes the episode id "1" |

## Left out

- The network call is an event that delivers results or a failure. This
  covers `axios.get`, the environment-variable and hard-coded URLs, and
  promise timing.
- `highlightSearchText` is not modelled. It builds a JavaScript regular
  expression from raw user input, and that can throw on metacharacters. It
  also calls `.test` on a global regex, whose `lastIndex` carries over from
  call to call. Regex semantics belong to a foreign library, and a literal
  substring split would not be faithful.
- DOM effects are not modelled: `scrollIntoView`, `blur`,
  `preventDefault`, the write to `inputRef.current.value`, the
  `value={inputRef.current?.value || ''}` binding, the markup and
  `classNames`.
- `handleListKeyDown` is not modelled. It depends on
  `event.currentTarget.contains` and on a `data-index` that the `<ul>` never
  carries.
- The older copy's `highlightedIndex` and its `checked={value.includes(character)}`
  are not modelled. Both depend on object identity and on `value` holding
  ids in some places and records in others.
- `value` is declared as `number[]` but used as a list of characters. It is
  modelled as a sequence of characters.
- `characters.filter(character => character)` at render time is not
  modelled. Every element is a record, so every element passes.
- React render scheduling and batching are not modelled. Each handler and
  the effect it triggers form one sequential step.
- Ids are integers, so 0 is the only falsy id. `NaN`, `undefined` and a
  missing character are not represented.
- A click on a list item's checkbox fires both the checkbox's `onChange`
  and the item's `onClick`, so the toggle runs twice for one click
  (src/components/RickAndMortyAutocomplete.tsx:186 and :193,
  src/RickAndMortyAutocomplete.tsx:135 and :141). Both calls read the same
  render's `value`, so `onChange` gets the same toggled list twice. Event
  propagation and the shared render state are not modelled: `Select` is one
  handler call on the state the previous call left.
- `src/App.tsx` only wires `useState` to the component. Its one
  consequence, that each list passed to `onChange` becomes the next
  `value`, is built into both classes.
