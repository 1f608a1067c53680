/**
 * The WeatherList component's state and its event handlers. Each handler
 * is one atomic transition; the React setters become field assignments.
 */
module WeatherListComponent {
  import opened WeatherModel

  class WeatherList {
    /** The static dataset every search filters. */
    const weatherData: seq<Weather>

    var temperatureUnit: TemperatureUnit
    var weatherList: seq<Weather>
    var weatherSearchInputText: string
    var favoriteWeathers: seq<Weather>

    /**
     * What every handler keeps: the visible list is drawn from the dataset
     * in dataset order and is empty only when the dataset is, and every
     * favourite is a record of the dataset.
     */
    ghost predicate Valid()
      reads this
    {
      && IsSubsequence(weatherList, weatherData)
      && (weatherData != [] ==> weatherList != [])
      && forall w :: w in favoriteWeathers ==> w in weatherData
    }

    /** Mounting the component: Celsius, the whole dataset, an empty search box, no favourites. */
    constructor (data: seq<Weather>)
      ensures Valid()
      ensures weatherData == data
      ensures temperatureUnit == C
      ensures weatherList == data
      ensures weatherSearchInputText == ""
      ensures favoriteWeathers == []
    {
      weatherData := data;
      temperatureUnit := C;
      weatherList := data;
      weatherSearchInputText := "";
      favoriteWeathers := [];
      new;
      SubsequenceReflexive(data);
    }

    /** `isFavoriteWeather`: some favourite carries the id. */
    function IsFavoriteWeather(weatherId: int): (r: bool)
      reads this
      ensures r <==> exists i :: 0 <= i < |favoriteWeathers| && favoriteWeathers[i].id == weatherId
    {
      HasId(favoriteWeathers, weatherId)
    }

    /**
     * `handleAddFavorite`: the first visible record with the id is appended
     * to the favourites, with no duplicate check; nothing else changes.
     */
    method HandleAddFavorite(weatherId: int)
      requires Valid()
      modifies this
      ensures Valid()
      ensures favoriteWeathers == AddedFavorites(old(favoriteWeathers), weatherList, weatherId)
      ensures weatherList == old(weatherList)
      ensures weatherSearchInputText == old(weatherSearchInputText)
      ensures temperatureUnit == old(temperatureUnit)
    {
      var favoriteWeather := FindById(weatherList, weatherId);
      if favoriteWeather.Some? {
        SubsequenceMembers(weatherList, weatherData);
        favoriteWeathers := favoriteWeathers + [favoriteWeather.value];
      }
    }

    /**
     * `handleRemoveFavorite`: every favourite with the id is dropped, the
     * rest keep their order; an id that is no favourite changes nothing.
     */
    method HandleRemoveFavorite(weatherId: int)
      requires Valid()
      modifies this
      ensures Valid()
      ensures favoriteWeathers == WithoutId(old(favoriteWeathers), weatherId)
      ensures !old(IsFavoriteWeather(weatherId)) ==> favoriteWeathers == old(favoriteWeathers)
      ensures !IsFavoriteWeather(weatherId)
      ensures weatherList == old(weatherList)
      ensures weatherSearchInputText == old(weatherSearchInputText)
      ensures temperatureUnit == old(temperatureUnit)
    {
      var unFavoriteWeather := FindById(favoriteWeathers, weatherId);
      if unFavoriteWeather.Some? {
        favoriteWeathers := WithoutId(favoriteWeathers, unFavoriteWeather.value.id);
      } else {
        WithoutAbsentId(favoriteWeathers, weatherId);
      }
      assert forall i :: 0 <= i < |favoriteWeathers| ==> favoriteWeathers[i] in favoriteWeathers;
    }

    /**
     * `handleTemperatureUnit`: both tests read the unit as it was when the
     * handler was created, so exactly one of them fires.
     */
    method HandleTemperatureUnit()
      requires Valid()
      modifies this
      ensures Valid()
      ensures temperatureUnit == Toggled(old(temperatureUnit))
      ensures weatherList == old(weatherList)
      ensures weatherSearchInputText == old(weatherSearchInputText)
      ensures favoriteWeathers == old(favoriteWeathers)
    {
      var renderedUnit := temperatureUnit;
      if renderedUnit == C {
        temperatureUnit := F;
      }
      if renderedUnit == F {
        temperatureUnit := C;
      }
    }

    /**
     * `handleInputChange`: the search box takes the input, and the visible
     * list is recomputed from the dataset alone, falling back to the whole
     * dataset when no city matches.
     */
    method HandleInputChange(inputText: string)
      requires Valid()
      modifies this
      ensures Valid()
      ensures weatherSearchInputText == inputText
      ensures weatherList == SearchResult(weatherData, inputText)
      ensures favoriteWeathers == old(favoriteWeathers)
      ensures temperatureUnit == old(temperatureUnit)
    {
      weatherSearchInputText := inputText;
      var matches := FilterByCity(weatherData, inputText);
      var foundCity := |matches| > 0;
      if foundCity {
        weatherList := matches;
      } else {
        weatherList := weatherData;
        SubsequenceReflexive(weatherData);
      }
    }

    /** `handleClearSearch`: only the search box is emptied; the visible list is not recomputed. */
    method HandleClearSearch()
      requires Valid()
      modifies this
      ensures Valid()
      ensures weatherSearchInputText == ""
      ensures weatherList == old(weatherList)
      ensures favoriteWeathers == old(favoriteWeathers)
      ensures temperatureUnit == old(temperatureUnit)
    {
      weatherSearchInputText := "";
    }
  }
}
