/**
 * The values the WeatherList component works on, its queries over lists of
 * records, and the pure functions the state changes are specified by. The
 * class in WeatherListComponent is proved against these functions; the
 * lemmas here state what the transitions guarantee.
 */
module WeatherModel {
  import opened Text

  /** The component's `TemperatureUnits`: 'C' or 'F'. */
  datatype TemperatureUnit = C | F

  /**
   * One record of the static dataset. Only `id` and `city` are inspected;
   * the temperature and the description are carried along untouched.
   */
  datatype Weather = Weather(id: int, city: string, temperature: real, description: string)

  datatype Option<T> = None | Some(value: T)

  // ---------------------------------------------------------------------
  // Sequences
  // ---------------------------------------------------------------------

  /** `a` is `b` with some elements dropped and the rest kept in order. */
  ghost predicate IsSubsequence<T>(a: seq<T>, b: seq<T>)
    decreases |b|
  {
    a == [] || (b != [] && ((a[0] == b[0] && IsSubsequence(a[1..], b[1..])) || IsSubsequence(a, b[1..])))
  }

  lemma {:induction false} SubsequenceReflexive<T>(s: seq<T>)
    ensures IsSubsequence(s, s)
    decreases |s|
  {
    if s != [] {
      SubsequenceReflexive(s[1..]);
    }
  }

  lemma {:induction false} SubsequenceMembers<T>(a: seq<T>, b: seq<T>)
    requires IsSubsequence(a, b)
    ensures forall x :: x in a ==> x in b
    decreases |b|
  {
    if a != [] {
      if a[0] == b[0] && IsSubsequence(a[1..], b[1..]) {
        SubsequenceMembers(a[1..], b[1..]);
        assert forall x :: x in a ==> x == a[0] || x in a[1..];
      } else {
        SubsequenceMembers(a, b[1..]);
      }
      assert forall x :: x in b[1..] ==> x in b;
    }
  }

  /** No two records of `ws` share an id. */
  ghost predicate DistinctIds(ws: seq<Weather>)
  {
    forall i, j :: 0 <= i < j < |ws| ==> ws[i].id != ws[j].id
  }

  /** `i` is the position of the first record of `ws` whose id is `weatherId`. */
  ghost predicate FirstWithId(ws: seq<Weather>, weatherId: int, i: int)
  {
    0 <= i < |ws| && ws[i].id == weatherId && forall j :: 0 <= j < i ==> ws[j].id != weatherId
  }

  // ---------------------------------------------------------------------
  // Queries over a list of records
  // ---------------------------------------------------------------------

  /** `ws.some(({ id }) => id === weatherId)` */
  function HasId(ws: seq<Weather>, weatherId: int): (r: bool)
    ensures r <==> exists i :: 0 <= i < |ws| && ws[i].id == weatherId
  {
    ws != [] && (ws[0].id == weatherId || HasId(ws[1..], weatherId))
  }

  /** `ws.find(({ id }) => id === weatherId)`: the first record with that id, if any. */
  function FindById(ws: seq<Weather>, weatherId: int): (r: Option<Weather>)
    ensures r.None? <==> forall i :: 0 <= i < |ws| ==> ws[i].id != weatherId
    ensures r.Some? ==> exists i :: FirstWithId(ws, weatherId, i) && ws[i] == r.value
  {
    if ws == [] then None
    else if ws[0].id == weatherId then
      assert FirstWithId(ws, weatherId, 0);
      Some(ws[0])
    else
      var r := FindById(ws[1..], weatherId);
      assert r.Some? ==> exists i :: FirstWithId(ws, weatherId, i) && ws[i] == r.value by {
        if r.Some? {
          var i :| FirstWithId(ws[1..], weatherId, i) && ws[1..][i] == r.value;
          assert FirstWithId(ws, weatherId, i + 1);
        }
      }
      r
  }

  /** `ws.filter(({ id }) => id !== weatherId)` */
  function WithoutId(ws: seq<Weather>, weatherId: int): (r: seq<Weather>)
    ensures IsSubsequence(r, ws)
    ensures forall w :: multiset(r)[w] == if w.id == weatherId then 0 else multiset(ws)[w]
    ensures forall w :: w in r <==> w in ws && w.id != weatherId
  {
    if ws == [] then []
    else
      var rest := WithoutId(ws[1..], weatherId);
      assert ws == [ws[0]] + ws[1..];
      if ws[0].id == weatherId then
        assert IsSubsequence(rest, ws);
        rest
      else
        [ws[0]] + rest
  }

  /** The test inside the search filter: the lower-cased city includes the lower-cased input. */
  predicate CityMatches(w: Weather, inputText: string): (r: bool)
    ensures r <==> exists i :: OccursAt(ToLower(w.city), ToLower(inputText), i)
    ensures inputText == [] ==> r
  {
    IncludesIffOccurs(ToLower(w.city), ToLower(inputText));
    Includes(ToLower(w.city), ToLower(inputText))
  }

  /** `weatherData.filter(weather => weather.city.toLowerCase().includes(inputText.toLowerCase()))` */
  function FilterByCity(data: seq<Weather>, inputText: string): (r: seq<Weather>)
    ensures IsSubsequence(r, data)
    ensures forall w :: multiset(r)[w] == if CityMatches(w, inputText) then multiset(data)[w] else 0
    ensures forall w :: w in r <==> w in data && CityMatches(w, inputText)
  {
    if data == [] then []
    else
      var rest := FilterByCity(data[1..], inputText);
      assert data == [data[0]] + data[1..];
      if CityMatches(data[0], inputText) then
        [data[0]] + rest
      else
        assert IsSubsequence(rest, data);
        rest
  }

  // ---------------------------------------------------------------------
  // The transitions, as functions of the state they read
  // ---------------------------------------------------------------------

  /**
   * The visible list after the search box changes to `inputText`: the
   * matching records of the dataset in dataset order, or the whole
   * dataset when nothing matches.
   */
  function SearchResult(data: seq<Weather>, inputText: string): (r: seq<Weather>)
    ensures (exists i :: 0 <= i < |data| && CityMatches(data[i], inputText)) ==>
              && IsSubsequence(r, data)
              && forall w :: multiset(r)[w] == if CityMatches(w, inputText) then multiset(data)[w] else 0
    ensures (forall i :: 0 <= i < |data| ==> !CityMatches(data[i], inputText)) ==> r == data
    ensures IsSubsequence(r, data)
    ensures data != [] ==> r != []
  {
    var matches := FilterByCity(data, inputText);
    if |matches| > 0 then
      matches
    else
      assert forall i :: 0 <= i < |data| ==> !CityMatches(data[i], inputText) by {
        forall i | 0 <= i < |data| ensures !CityMatches(data[i], inputText) {
          assert data[i] in data;
        }
      }
      SubsequenceReflexive(data);
      data
  }

  /**
   * The favourites after "add favourite" for `weatherId`: the first record
   * of the visible list with that id is appended, whether or not it is
   * already a favourite; with no such record nothing changes.
   */
  function AddedFavorites(favorites: seq<Weather>, visible: seq<Weather>, weatherId: int): (r: seq<Weather>)
    ensures !HasId(visible, weatherId) ==> r == favorites
    ensures HasId(visible, weatherId) ==>
              exists i :: FirstWithId(visible, weatherId, i) && r == favorites + [visible[i]]
  {
    match FindById(visible, weatherId)
    case Some(w) => favorites + [w]
    case None => favorites
  }

  /** The unit after the toggle: the other one. */
  function Toggled(u: TemperatureUnit): (r: TemperatureUnit)
    ensures r != u
  {
    match u
    case C => F
    case F => C
  }

  /** The name the toggle button uses for a unit. */
  function UnitName(u: TemperatureUnit): string
  {
    match u
    case C => "Celsius"
    case F => "Fahrenheit"
  }

  /** The text after "Switch to " on the toggle button while `u` is current. */
  function SwitchLabel(u: TemperatureUnit): (r: string)
    ensures r == UnitName(Toggled(u))
    ensures r != UnitName(u)
  {
    if u != C then "Celsius" else "Fahrenheit"
  }

  // ---------------------------------------------------------------------
  // Properties of the transitions
  // ---------------------------------------------------------------------

  /** Two toggles restore the unit. */
  lemma ToggleTwice(u: TemperatureUnit)
    ensures Toggled(Toggled(u)) == u
  {
  }

  /** Removing an id that no favourite carries leaves the favourites as they are. */
  lemma {:induction false} WithoutAbsentId(ws: seq<Weather>, weatherId: int)
    requires !HasId(ws, weatherId)
    ensures WithoutId(ws, weatherId) == ws
  {
    if ws != [] {
      WithoutAbsentId(ws[1..], weatherId);
    }
  }

  /** Removing an id twice is removing it once. */
  lemma RemoveIdempotent(ws: seq<Weather>, weatherId: int)
    ensures WithoutId(WithoutId(ws, weatherId), weatherId) == WithoutId(ws, weatherId)
  {
    WithoutAbsentId(WithoutId(ws, weatherId), weatherId);
  }

  /** Removing an id drops a record carrying it from the end of the list. */
  lemma {:induction false} WithoutIdAppend(ws: seq<Weather>, w: Weather, weatherId: int)
    requires w.id == weatherId
    ensures WithoutId(ws + [w], weatherId) == WithoutId(ws, weatherId)
    decreases |ws|
  {
    if ws == [] {
      assert ws + [w] == [w];
    } else {
      assert (ws + [w])[1..] == ws[1..] + [w];
      WithoutIdAppend(ws[1..], w, weatherId);
    }
  }

  /**
   * Adding a record that is not yet a favourite and then removing its id
   * gives back the favourites as they were.
   */
  lemma AddThenRemove(favorites: seq<Weather>, visible: seq<Weather>, weatherId: int)
    requires !HasId(favorites, weatherId)
    ensures WithoutId(AddedFavorites(favorites, visible, weatherId), weatherId) == favorites
  {
    WithoutAbsentId(favorites, weatherId);
    if HasId(visible, weatherId) {
      var added := AddedFavorites(favorites, visible, weatherId);
      var i :| FirstWithId(visible, weatherId, i) && added == favorites + [visible[i]];
      WithoutIdAppend(favorites, visible[i], weatherId);
    }
  }

  /**
   * Adding makes no duplicate check: adding a visible id twice appends the
   * same record twice.
   */
  lemma AddTwiceAppendsTwice(favorites: seq<Weather>, visible: seq<Weather>, weatherId: int)
    requires HasId(visible, weatherId)
    ensures exists w: Weather :: w.id == weatherId &&
              AddedFavorites(AddedFavorites(favorites, visible, weatherId), visible, weatherId) == favorites + [w, w]
  {
  }

  /**
   * Distinct ids survive an add of an id that is not yet a favourite. With
   * AddVisibleFavoriteDuplicates: an add of an id in the visible list keeps
   * the favourites duplicate-free if and only if the id is not yet a
   * favourite.
   */
  lemma AddKeepsIdsDistinct(favorites: seq<Weather>, visible: seq<Weather>, weatherId: int)
    requires DistinctIds(favorites)
    requires !HasId(favorites, weatherId)
    ensures DistinctIds(AddedFavorites(favorites, visible, weatherId))
  {
  }

  /**
   * Adding an id that is both visible and already a favourite creates a
   * duplicate id, since the add makes no duplicate check.
   */
  lemma AddVisibleFavoriteDuplicates(favorites: seq<Weather>, visible: seq<Weather>, weatherId: int)
    requires HasId(visible, weatherId)
    requires HasId(favorites, weatherId)
    ensures !DistinctIds(AddedFavorites(favorites, visible, weatherId))
  {
    var r := AddedFavorites(favorites, visible, weatherId);
    var j :| 0 <= j < |favorites| && favorites[j].id == weatherId;
    assert r[j].id == r[|favorites|].id;
  }

  /** Removing an id keeps the ids of the remaining favourites distinct. */
  lemma {:induction false} RemoveKeepsIdsDistinct(ws: seq<Weather>, weatherId: int)
    requires DistinctIds(ws)
    ensures DistinctIds(WithoutId(ws, weatherId))
  {
    if ws != [] {
      RemoveKeepsIdsDistinct(ws[1..], weatherId);
      var rest := WithoutId(ws[1..], weatherId);
      if ws[0].id != weatherId {
        var r := [ws[0]] + rest;
        forall a, b | 0 <= a < b < |r| ensures r[a].id != r[b].id {
          if a == 0 {
            assert r[b] in rest;
            assert r[b] in ws[1..];
          }
        }
      }
    }
  }

  /** The filter reads the input only through its lower-cased form. */
  lemma {:induction false} FilterByCityLowered(data: seq<Weather>, t1: string, t2: string)
    requires ToLower(t1) == ToLower(t2)
    ensures FilterByCity(data, t1) == FilterByCity(data, t2)
  {
    if data != [] {
      FilterByCityLowered(data[1..], t1, t2);
    }
  }

  /** The search is case-insensitive in its input. */
  lemma SearchIgnoresCase(data: seq<Weather>, inputText: string)
    ensures SearchResult(data, inputText) == SearchResult(data, ToLower(inputText))
  {
    ToLowerIdempotent(inputText);
    FilterByCityLowered(data, inputText, ToLower(inputText));
  }

  /** When every city matches, the filter keeps the whole dataset. */
  lemma {:induction false} FilterByCityAll(data: seq<Weather>, inputText: string)
    requires forall i :: 0 <= i < |data| ==> CityMatches(data[i], inputText)
    ensures FilterByCity(data, inputText) == data
  {
    if data != [] {
      FilterByCityAll(data[1..], inputText);
    }
  }

  /** An empty search box shows the whole dataset. */
  lemma SearchEmptyShowsAll(data: seq<Weather>)
    ensures SearchResult(data, "") == data
  {
    FilterByCityAll(data, "");
  }
}
