# WeatherList component: a verified model

This project models the state logic of the `WeatherList` React component
(`src/components/WeatherList/index.tsx`) of a small weather dashboard. The
component holds four pieces of state:

- the temperature unit (`'C'` or `'F'`),
- the visible list of weather records,
- the search box text,
- the favourite records.

It changes them through five handlers:

- a search that filters a fixed dataset by case-insensitive substring
  match on the city, and shows the whole dataset when nothing matches;
- clearing the search box;
- adding a favourite, looked up in the visible list;
- removing a favourite;
- toggling the unit.

Files:

- `text.dfy` (module `Text`): ASCII `toLowerCase` and `includes`, with
  `includes` proved equal to "occurs at some position".
- `weather_model.dfy` (module `WeatherModel`): the record and unit types,
  the `.some` / `.find` / `.filter` queries as functions (`HasId`,
  `FindById`, `WithoutId`, `CityMatches`, `FilterByCity`), the functions
  that specify the search (`SearchResult`), the add (`AddedFavorites`), the
  toggle (`Toggled`) and the button label (`SwitchLabel`), and the lemmas
  about them. Remove is specified by `WithoutId` itself; clearing the
  search needs no function.
- `weather_list.dfy` (module `WeatherListComponent`): class `WeatherList`.
  Its fields are the four state variables plus the dataset, and its methods
  are the handlers. Each method is proved against the functions above and
  keeps the invariant `Valid()`: the visible list is an order-preserving
  subsequence of the dataset and is non-empty when the dataset is, and
  every favourite is a record of the dataset.
- `scenarios.dfy` (module `Scenarios`): concrete scenarios on a
  New York / London / Paris dataset, proved from the definitions.

The dataset `weatherData` is a constructor parameter. Records carry `id`
and `city`, which the logic reads, and a temperature and a description,
which it only carries along.

Two behaviours of the code differ from what a reader might expect, and
the model follows the code:

- One might expect a second add of the same favourite to be a no-op. The
  code appends again (line 19): adding the same visible id twice lists the
  record twice (`AddTwiceAppendsTwice`, `Scenarios.AddTwiceThenRemove`).
  For an id in the visible list, the add keeps the favourites free of
  duplicate ids if and only if the id is not yet a favourite
  (`AddKeepsIdsDistinct`, `AddVisibleFavoriteDuplicates`); an id that is not
  visible changes nothing.
- One might expect clearing the search to show the whole dataset again.
  Line 62 only empties the search box, and the visible list stays as the
  last search left it (`Scenarios.SearchThenClear`).

The unit toggle (lines 31-38) tests the unit captured at render time
twice. Because a React setter does not change that captured value, exactly
one branch fires. The method branches twice on the value read on entry.

## Model

| member | source | states |
|---|---|---|
| `Text.LowerChar` | src/components/WeatherList/index.tsx:48-49 | the lowered character is never an upper-case ASCII letter; each of 'A'..'Z' goes to its own lower-case letter ('L' to 'l') and every other character is kept |
| `Text.ToLower` | src/components/WeatherList/index.tsx:48-49 | `toLowerCase` keeps the length and lowers each character in place |
| `Text.ToLowerIdempotent` | src/components/WeatherList/index.tsx:48-49 | lowering an already lowered string changes nothing |
| `Text.Includes` | src/components/WeatherList/index.tsx:50 | `includes` accepts the empty needle and only accepts needles no longer than the haystack |
| `Text.IncludesIffOccurs` | src/components/WeatherList/index.tsx:50 | the left-to-right scan succeeds exactly when the needle occurs at some position of the haystack |
| `WeatherModel.HasId` | src/components/WeatherList/index.tsx:12-13 | `.some` on the id is true iff some element carries that id |
| `WeatherModel.FindById` | src/components/WeatherList/index.tsx:16 | `.find` on the id is empty iff no element carries the id, and otherwise returns the element at the first position carrying it |
| `WeatherModel.WithoutId` | src/components/WeatherList/index.tsx:27 | the filter keeps the other records in their order (a subsequence), each exactly as often as before, and drops every record with the id |
| `WeatherModel.CityMatches` | src/components/WeatherList/index.tsx:47-50 | the filter callback holds exactly when the lower-cased input occurs at some position of the lower-cased city, and always for the empty input |
| `WeatherModel.FilterByCity` | src/components/WeatherList/index.tsx:46-51 | the filter is the subsequence of the dataset holding every record whose lowered city includes the lowered input, with its multiplicity, and no other record |
| `WeatherModel.SearchResult` | src/components/WeatherList/index.tsx:46-59 | if some city matches, the visible list is exactly the matching records in dataset order; if none matches, it is the whole dataset; it is always a subsequence of the dataset and is non-empty when the dataset is |
| `WeatherModel.AddedFavorites` | src/components/WeatherList/index.tsx:15-21 | if the visible list holds the id, the favourites gain the first visible record with it at the end, with no duplicate check; otherwise they are unchanged |
| `WeatherModel.Toggled` | src/components/WeatherList/index.tsx:31-38 | the toggle always yields the other unit |
| `WeatherModel.SwitchLabel` | src/components/WeatherList/index.tsx:109 | the button names the unit the toggle switches to, never the current one |
| `WeatherModel.ToggleTwice` | src/components/WeatherList/index.tsx:31-38 | two toggles restore the unit |
| `WeatherModel.WithoutAbsentId` | src/components/WeatherList/index.tsx:23-29 | removing an id that no favourite carries leaves the favourites unchanged |
| `WeatherModel.RemoveIdempotent` | src/components/WeatherList/index.tsx:23-29 | removing the same id twice is removing it once |
| `WeatherModel.AddThenRemove` | src/components/WeatherList/index.tsx:15-29 | adding an id that is not yet a favourite and then removing it restores the favourites |
| `WeatherModel.AddTwiceAppendsTwice` | src/components/WeatherList/index.tsx:15-21 | adding a visible id twice appends the same record twice |
| `WeatherModel.AddKeepsIdsDistinct` | src/components/WeatherList/index.tsx:15-21 | favourites with distinct ids keep them distinct after adding an id that is not yet a favourite |
| `WeatherModel.AddVisibleFavoriteDuplicates` | src/components/WeatherList/index.tsx:15-21 | adding an id that is visible and already a favourite leaves two favourites with that id |
| `WeatherModel.RemoveKeepsIdsDistinct` | src/components/WeatherList/index.tsx:27 | removing an id keeps distinct ids distinct |
| `WeatherModel.FilterByCityLowered` | src/components/WeatherList/index.tsx:47-51 | two inputs with the same lower-cased form filter the dataset identically |
| `WeatherModel.SearchIgnoresCase` | src/components/WeatherList/index.tsx:46-59 | searching an input gives the same visible list as searching its lower-cased form |
| `WeatherModel.SearchEmptyShowsAll` | src/components/WeatherList/index.tsx:46-59 | searching the empty text shows the whole dataset |
| `WeatherListComponent.WeatherList.constructor` | src/components/WeatherList/index.tsx:7-10 | initial state: unit C, the whole dataset visible, empty search text, no favourites; the invariant holds |
| `WeatherListComponent.WeatherList.IsFavoriteWeather` | src/components/WeatherList/index.tsx:12-13 | true iff some favourite carries the id |
| `WeatherListComponent.WeatherList.HandleAddFavorite` | src/components/WeatherList/index.tsx:15-21 | the favourites become `AddedFavorites` of the old favourites and the visible list; the other fields are unchanged; the invariant is kept |
| `WeatherListComponent.WeatherList.HandleRemoveFavorite` | src/components/WeatherList/index.tsx:23-29 | the favourites lose every record with the id and keep the rest in order; an absent id changes nothing; afterwards the id is no favourite; the other fields are unchanged |
| `WeatherListComponent.WeatherList.HandleTemperatureUnit` | src/components/WeatherList/index.tsx:31-38 | the unit flips exactly once (C to F, F to C); the other fields are unchanged |
| `WeatherListComponent.WeatherList.HandleInputChange` | src/components/WeatherList/index.tsx:40-60 | the search text becomes the input and the visible list becomes `SearchResult` of the dataset and the input, independent of the previous visible list; favourites and unit are unchanged |
| `WeatherListComponent.WeatherList.HandleClearSearch` | src/components/WeatherList/index.tsx:62 | the search text becomes empty; visible list, favourites and unit are unchanged |
| `Scenarios.SearchLondon` | src/components/WeatherList/index.tsx:46-59 | on New York and London, "lond" and "LON" both show London alone |
| `Scenarios.SearchThenClear` | src/components/WeatherList/index.tsx:40-62 | on New York, London and Paris, "par" shows Paris alone, and after clearing the box Paris is still the only visible record, which is not what the empty text selects |
| `Scenarios.AddTwiceThenRemove` | src/components/WeatherList/index.tsx:15-29 | adding London twice lists it twice, and one removal clears both |

## Left out

- Rendering (lines 64-140): the JSX tables, CSS and `data-testid` attributes are presentation only.
- `WeatherCard` and the Celsius-to-Fahrenheit display conversion: that component is not part of this model, and the conversion is floating-point display arithmetic. Which of add or remove a row offers is decided there, so the model cannot state that callers only add non-favourites.
- The contents of `weatherData` and the `Weather` / `TemperatureUnits` types (`src/data/weatherData` is not part of this model): the dataset is a constructor parameter.
- React mechanics: `useState`, re-render scheduling, batching of setters, the functional `prevState` update and the `ChangeEvent` object. Each handler is one atomic transition on the current state.
- `Text.LowerChar`: lowers only 'A'..'Z'; other upper-case letters such as 'É', which `toLowerCase` lowers, are kept unchanged.
- `Text.ToLower`: lowers only ASCII letters, not the full Unicode case mapping of `toLowerCase` (which can also change the length).
