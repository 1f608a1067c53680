/**
 * Concrete scenarios of the component on a small dataset, proved from the
 * definitions.
 */
module Scenarios {
  import opened Text
  import opened WeatherModel
  import opened WeatherListComponent

  const NewYork := Weather(1, "New York", 20.0, "Sunny")
  const London := Weather(2, "London", 15.0, "Cloudy")
  const Paris := Weather(3, "Paris", 18.0, "Rainy")

  /** The three cities and the three inputs, lower-cased. */
  lemma LowerNewYork()
    ensures ToLower("New York") == "new york"
  {
  }

  lemma LowerLondon()
    ensures ToLower("London") == "london"
  {
  }

  lemma LowerParis()
    ensures ToLower("Paris") == "paris"
  {
  }

  lemma LowerInputs()
    ensures ToLower("lond") == "lond"
    ensures ToLower("LON") == "lon"
    ensures ToLower("par") == "par"
  {
  }

  lemma ScanLond()
    ensures !Includes("new york", "lond") && Includes("london", "lond")
  {
    FirstCharAbsent("new york", "lond");
    assert "london"[..4] == "lond";
  }

  lemma ScanLon()
    ensures !Includes("new york", "lon") && Includes("london", "lon")
  {
    FirstCharAbsent("new york", "lon");
    assert "london"[..3] == "lon";
  }

  lemma ScanPar()
    ensures !Includes("new york", "par") && !Includes("london", "par") && Includes("paris", "par")
  {
    FirstCharAbsent("new york", "par");
    FirstCharAbsent("london", "par");
    assert "paris"[..3] == "par";
  }

  lemma MatchesLond()
    ensures !CityMatches(NewYork, "lond") && CityMatches(London, "lond")
  {
    LowerNewYork();
    LowerLondon();
    LowerInputs();
    ScanLond();
  }

  lemma MatchesLonUpper()
    ensures !CityMatches(NewYork, "LON") && CityMatches(London, "LON")
  {
    LowerNewYork();
    LowerLondon();
    LowerInputs();
    ScanLon();
  }

  lemma MatchesPar()
    ensures !CityMatches(NewYork, "par") && !CityMatches(London, "par") && CityMatches(Paris, "par")
  {
    LowerNewYork();
    LowerLondon();
    LowerParis();
    LowerInputs();
    ScanPar();
  }

  /** "lond" and "LON" both select London alone from New York and London. */
  lemma SearchLondon()
    ensures SearchResult([NewYork, London], "lond") == [London]
    ensures SearchResult([NewYork, London], "LON") == [London]
  {
    MatchesLond();
    MatchesLonUpper();
    assert [NewYork, London][1..] == [London];
    assert FilterByCity([London], "lond") == [London];
    assert FilterByCity([London], "LON") == [London];
  }

  /**
   * "par" selects Paris alone, and clearing the box keeps that list on
   * screen: afterwards the visible list is no longer what the (empty)
   * search text would select.
   */
  method SearchThenClear() returns (visible: seq<Weather>, searchText: string)
    ensures visible == [Paris]
    ensures searchText == ""
    ensures visible != SearchResult([NewYork, London, Paris], searchText)
  {
    var data := [NewYork, London, Paris];
    var board := new WeatherList(data);
    MatchesPar();
    assert data[1..] == [London, Paris];
    assert [London, Paris][1..] == [Paris];
    assert FilterByCity([Paris], "par") == [Paris];
    assert FilterByCity([London, Paris], "par") == [Paris];
    board.HandleInputChange("par");
    board.HandleClearSearch();
    visible, searchText := board.weatherList, board.weatherSearchInputText;
    SearchEmptyShowsAll(data);
  }

  /** Adding London twice lists it twice; removing it once clears both. */
  method AddTwiceThenRemove() returns (afterAdds: seq<Weather>, afterRemove: seq<Weather>)
    ensures afterAdds == [London, London]
    ensures afterRemove == []
  {
    var data := [NewYork, London, Paris];
    var board := new WeatherList(data);
    assert data[1..][0] == London;
    assert FindById(data, 2) == Some(London);
    board.HandleAddFavorite(2);
    board.HandleAddFavorite(2);
    afterAdds := board.favoriteWeathers;
    board.HandleRemoveFavorite(2);
    afterRemove := board.favoriteWeathers;
  }
}
