# Recyclers discovery screen — a Dafny model

This project models the collection-point discovery screen of a mobile client
for locating waste-collection points ("recyclers"). The screen asks for the
device position, reads the material types and the recyclers from a backend,
and keeps a multi-select filter of type ids. It shows the recyclers as map
markers that open a detail screen, and the types as chips that toggle the
filter.

The screen's React state becomes an immutable record `Discovery.State` with
four fields:

- `position`: starts at the placeholder `[0, 0]`.
- `types`: the material types.
- `recyclers`: the collection points.
- `selected`: a `seq<int>` of type ids.

Every asynchronous completion is an `Event` handled by the pure function
`Discovery.Step`:

- `PositionResolved`: a position fix arrived.
- `PermissionDenied`: location access was refused.
- `TypesLoaded`: the `/types` response arrived.
- `RecyclersLoaded`: a `/recyclers` response arrived; it records the `types` of the read it answers, which the handler ignores.
- `TypeToggled`: a chip was tapped.

`Step` returns the next state and the effects the screen starts. A toggle
starts a new `/recyclers` read for the new selection. A refusal raises the
alert. `Render.Render` derives what the screen shows.

Modules:

- `Selection` (`selection.dfy`) covers the toggle handler and the array
  methods it relies on: `findIndex`, `filter`, and append.
- `Discovery` (`discovery.dfy`) holds the state, the events, the handlers and
  the lemmas about event traces.
- `Render` (`render.dfy`) covers the map guard, the markers, the chips and the
  navigation intents.

Two behaviours of the code are worth stating plainly:

- **No stale-response discard.** Nothing discards a `/recyclers` response to
  an older read: `.then(setRecyclers)` (src/pages/Recyclers/index.tsx:76-78)
  commits every response as it arrives, so the list can answer a selection
  that is no longer current. The model is last-arrived-wins
  (`Discovery.RunRecyclersIsLastArrived`). `Discovery.StaleResponseIsCommitted`
  gives the out-of-order case: the screen keeps the answer to the `[1]` read
  while the selection is empty.
- **The map guard tests only the latitude.** The guard
  `initialPosition[0] !== 0` (src/pages/Recyclers/index.tsx:120) tests only the
  latitude, so a real fix on the equator, which is not the `(0, 0)`
  placeholder, also hides the map (`Render.EquatorFixHidesMap`).

Also, toggling an id twice does not always restore the list when the
id was present. The id comes back at the end. So the list is restored exactly
when the id was absent or was already the last element
(`Selection.ToggleTwiceRestoresList`, `Selection.ToggleTwiceMovesToEnd`).

## Model

| member | source | states |
|---|---|---|
| Selection.FindIndex | src/pages/Recyclers/index.tsx:88 | the result is -1 iff the id is absent; otherwise it is an index holding the id, with no earlier occurrence |
| Selection.Without | src/pages/Recyclers/index.tsx:91 | the filtered list has no occurrence of the id, and every other id is in it iff it was in the input |
| Selection.Toggle | src/pages/Recyclers/index.tsx:87-97 | the toggled id's membership flips and every other id's membership is unchanged; an absent id is appended as the last element after the old list; a present id is filtered out |
| Selection.WithoutKeepsOrder | src/pages/Recyclers/index.tsx:91 | filtering keeps exactly the entries that differ from the id, in their original relative order, shown by an increasing index embedding |
| Selection.WithoutKeepsCounts | src/pages/Recyclers/index.tsx:88-93 | removing a present id drops every occurrence of it and keeps every other id with its multiplicity |
| Selection.WithoutKeepsNoDuplicates | src/pages/Recyclers/index.tsx:91 | filtering a duplicate-free list leaves it duplicate-free |
| Selection.ToggleKeepsNoDuplicates | src/pages/Recyclers/index.tsx:88-95 | one toggle keeps a duplicate-free selection duplicate-free, because an id is appended only when `findIndex` returned a negative index |
| Selection.ToggleAllKeepsNoDuplicates | src/pages/Recyclers/index.tsx:87-97 | any sequence of toggles keeps a duplicate-free selection duplicate-free |
| Selection.FromEmptyNoDuplicates | src/pages/Recyclers/index.tsx:45 | from the initial empty selection, any sequence of toggles gives a duplicate-free list |
| Selection.ToggleAllMembership | src/pages/Recyclers/index.tsx:87-97 | after a sequence of toggles, an id is selected iff its initial membership differs from the parity of how often it was toggled (symmetric difference) |
| Selection.ToggleTwiceRestoresSet | src/pages/Recyclers/index.tsx:91-95 | toggling the same id twice restores the selection as a set |
| Selection.ToggleTwiceRestoresList | src/pages/Recyclers/index.tsx:91-95 | for a duplicate-free selection, toggling an id twice restores the list iff the id was absent or was the last element |
| Selection.ToggleTwiceMovesToEnd | src/pages/Recyclers/index.tsx:91-95 | removing and re-adding an id that was not last moves it to the end (`[2, 1]` becomes `[1, 2]`) |
| Discovery.Init | src/pages/Recyclers/index.tsx:38-45 | the screen mounts at the placeholder position `[0, 0]` with empty types, empty recyclers and an empty selection |
| Discovery.MountEffects | src/pages/Recyclers/index.tsx:47-85 | mounting starts three effects: the location request, an unfiltered recyclers read (empty selection), and the types read |
| Discovery.Step | src/pages/Recyclers/index.tsx:47-97 | a refusal leaves the state untouched and raises the alert; a fix overwrites only the position; each response replaces only its own list, wholesale; a toggle flips only the toggled id's membership, changes no other field, and issues exactly one recyclers read carrying the new selection |
| Discovery.RunPositionIsLastFix | src/pages/Recyclers/index.tsx:48-64 | over any event trace, the position is the last fix that arrived, or is unchanged if none arrived; refusals never move it |
| Discovery.RunTypesIsLastResponse | src/pages/Recyclers/index.tsx:81-85 | over any event trace, the types list is the last `/types` response that arrived, or is unchanged if none arrived |
| Discovery.RunRecyclersIsLastArrived | src/pages/Recyclers/index.tsx:69-79 | over any event trace, the recyclers list is the last `/recyclers` response to arrive, whatever request it answered (last-arrived-wins) |
| Discovery.RunSelectionIsToggles | src/pages/Recyclers/index.tsx:87-97 | over any event trace, the selection is the initial selection with the trace's toggles applied in order; no other event changes it |
| Discovery.SelectionStaysDuplicateFree | src/pages/Recyclers/index.tsx:45-97 | in every state reachable from mount, the selection is duplicate-free |
| Discovery.ReadsFollowToggles | src/pages/Recyclers/index.tsx:69-79 | the `types` parameters of the recyclers reads issued during a trace are, in issue order, exactly the selections right after each toggle: one read per toggle, none from any other event |
| Discovery.StaleResponseIsCommitted | src/pages/Recyclers/index.tsx:69-79 | after toggling type 1 on and off, reads for `[1]` then `[]` are issued; if their responses arrive in reverse order, the committed list is the answer to the `[1]` read, whose `types` differ from the now-empty selection |
| Render.Render | src/pages/Recyclers/index.tsx:119-130 | the map is shown iff the stored latitude is non-zero; a shown map has the stored position as its initial region, with the loading indicator off; the back button's intent is go-back |
| Render.MarkersMatchRecyclers | src/pages/Recyclers/index.tsx:131-151 | a shown map has one marker per recycler, in list order, keyed, placed and labelled from that recycler |
| Render.PressMarkerNavigatesToDetail | src/pages/Recyclers/index.tsx:103-135 | tapping the marker of recycler `i` emits exactly one intent: open Detail with that recycler's id |
| Render.DetailTargetsAreRecyclerIds | src/pages/Recyclers/index.tsx:131-135 | the set of detail intents reachable from the markers equals the set of current recycler ids |
| Render.ChipHighlightedIffSelected | src/pages/Recyclers/index.tsx:163-170 | there is one chip per type, in order; a chip is highlighted iff the selection contains its type id |
| Render.PressChipFlipsHighlight | src/pages/Recyclers/index.tsx:163-171 | tapping a chip flips the highlight of every chip with the same type id, leaves the other chips alone, and issues one recyclers read for the new selection |
| Render.EquatorFixHidesMap | src/pages/Recyclers/index.tsx:120 | a fix with latitude 0 and non-zero longitude is not the placeholder, yet the map stays hidden |
| Render.NoFixNoMap | src/pages/Recyclers/index.tsx:51-56 | if no fix ever arrives (for example, permission was refused), the position stays the placeholder and the map is never shown |
| Render.MapStaysAfterFix | src/pages/Recyclers/index.tsx:59-63 | after a fix with non-zero latitude, the map is shown with that fix as its initial region, and stays so whatever follows until another fix arrives |

## Left out

- Network reads (`/types`, `/recyclers`, `/recyclers/:id`) go through an axios wrapper that is not part of this model. Only their requests (effects) and their results (events) are modelled. How axios serialises the `types` array into the query string is not modelled.
- Failed reads are not modelled. The code has no rejection handler, so a failed read changes nothing. That is the same as the response event never arriving.
- The location permission and position APIs, and `Alert.alert`, are platform calls. They become the `PositionResolved` and `PermissionDenied` events and the `Alert` effect. A failure of the position fix after permission was granted is not modelled; the code does not handle it either.
- The map region deltas (0.014) and all coordinate arithmetic are display constants. Coordinates are opaque reals, compared only with 0.
- JSX layout, styles, SVG and image rendering, the fixed marker image URL, and the `String(id)` conversion of React keys are pure presentation.
- The detail screen (src/pages/Detail/index.tsx), the sign-in and home screens, and the navigator wiring (src/routes.tsx) are out of scope. The model emits the `NavigateToDetail` intent but does not model the router that receives it. That router does not register a 'Detail' screen.
- Render.Render: the map's `initialRegion` is recomputed from the state, whereas the real map applies it only when it mounts. A second fix would move the model's region but not the real map's; `loadPosition` runs once, so the screen never produces a second fix.
- React closure timing is not modelled. Each tap is handled against the state that the previous event produced, as the re-render between taps provides.
- Teardown is not modelled: no cancellation of in-flight reads when the screen unmounts. Neither is last-issued-wins ordering or debouncing, since the code has none of them.
