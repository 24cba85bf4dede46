/**
  The `Menu` component's search state as one object. Its mutable fields are
  the component's state variables; the catalog and the distance function are
  fixed when the object is created. Each handler changes the fields the way
  the component's state setters do, all at once.
 */
module MenuComponent {
  import opened Catalog
  import opened Search

  /** The option chosen in the main filter select box. */
  datatype FilterMode = ByName | ByOpeningHours | ByCity

  class Menu {
    /** The catalog read from the data file. */
    const data: seq<Site>
    /**
      Whole kilometres from the user's position (possibly still unknown) to a
      site: the geodesic library's distance, converted to km and cut to an
      integer. It is a parameter here, not computed.
     */
    const distKm: (Option<Coord>, Coord) -> int

    var searchValue: string
    var choosenSite: Option<Site>
    var availableSites: seq<Site>
    var currentPosition: Option<Coord>
    var distanceFromSite: Option<int>
    var openingHours: seq<string>
    var selectedOpeningHours: string
    var cities: seq<string>
    var selectedCity: string
    var currentFilter: FilterMode

    /**
      The state every handler keeps: the two choice lists are the catalog
      index, the shown sites are a search of the catalog (or all of it, or
      none), and a site is selected exactly when a distance is shown.
     */
    ghost predicate Valid()
      reads this
    {
      && IsIndex(openingHours, HoursIn(data))
      && IsIndex(cities, CitiesIn(data))
      && IsShown(availableSites)
      && (choosenSite.None? <==> distanceFromSite.None?)
    }

    /**
      What the map may show: nothing, or the result of one search of the
      catalog (the whole catalog is the search for the empty name).
     */
    ghost predicate IsShown(sites: seq<Site>)
      reads this
    {
      sites == [] || exists c :: sites == Matching(data, c)
    }

    /**
      The component once mounted: nothing typed or chosen, the whole catalog
      shown, no selection, no position yet, and the choice lists indexed.
     */
    constructor (catalog: seq<Site>, distance: (Option<Coord>, Coord) -> int)
      ensures Valid()
      ensures data == catalog && distKm == distance
      ensures searchValue == "" && selectedOpeningHours == "" && selectedCity == ""
      ensures availableSites == catalog
      ensures choosenSite == None && distanceFromSite == None && currentPosition == None
      ensures currentFilter == ByName
    {
      var hours, towns := IndexCatalog(catalog);
      EmptyNameKeepsAll(catalog);
      data, distKm := catalog, distance;
      searchValue, selectedOpeningHours, selectedCity := "", "", "";
      availableSites := catalog;
      choosenSite, distanceFromSite, currentPosition := None, None, None;
      openingHours, cities := hours, towns;
      currentFilter := ByName;
    }

    /**
      Shows a search result; a non-empty one also selects its first site and
      measures the distance to it, an empty one keeps the old selection.
     */
    method ShowResults(found: seq<Site>)
      requires Valid() && IsShown(found)
      modifies this
      ensures Valid()
      ensures availableSites == found
      ensures found != [] ==> choosenSite == Some(found[0])
      ensures found != [] ==> distanceFromSite == Some(distKm(currentPosition, found[0].position))
      ensures found == [] ==> choosenSite == old(choosenSite) && distanceFromSite == old(distanceFromSite)
      ensures searchValue == old(searchValue) && currentPosition == old(currentPosition)
      ensures openingHours == old(openingHours) && selectedOpeningHours == old(selectedOpeningHours)
      ensures cities == old(cities) && selectedCity == old(selectedCity)
      ensures currentFilter == old(currentFilter)
    {
      availableSites := found;
      if |found| > 0 {
        distanceFromSite := Some(distKm(currentPosition, found[0].position));
        choosenSite := Some(found[0]);
      }
    }

    /**
      Typing in the name box. A non-empty value shows the sites whose name
      contains it; the empty value shows the whole catalog and leaves the
      selection alone.
     */
    method OnChangeSearchValue(value: string)
      requires Valid()
      modifies this
      ensures Valid()
      ensures searchValue == value
      ensures value != "" ==> availableSites == Matching(data, NameContains(value))
      ensures value == "" ==> availableSites == data
      ensures value != "" && availableSites != [] ==>
                choosenSite == Some(availableSites[0]) &&
                distanceFromSite == Some(distKm(currentPosition, availableSites[0].position))
      ensures value == "" || availableSites == [] ==>
                choosenSite == old(choosenSite) && distanceFromSite == old(distanceFromSite)
      ensures currentPosition == old(currentPosition)
      ensures openingHours == old(openingHours) && selectedOpeningHours == old(selectedOpeningHours)
      ensures cities == old(cities) && selectedCity == old(selectedCity)
      ensures currentFilter == old(currentFilter)
    {
      searchValue := value;
      if value != "" {
        var found := Scan(data, NameContains(value));
        ShowResults(found);
      } else {
        EmptyNameKeepsAll(data);
        availableSites := data;
      }
    }

    /**
      Choosing in the opening-hours box. The empty choice shows no site; any
      other shows the sites open at exactly those hours.
     */
    method OnChangeOpeningHours(value: string)
      requires Valid()
      modifies this
      ensures Valid()
      ensures selectedOpeningHours == value
      ensures value == "" ==> availableSites == []
      ensures value != "" ==> availableSites == Matching(data, HoursAre(value))
      ensures availableSites != [] ==>
                choosenSite == Some(availableSites[0]) &&
                distanceFromSite == Some(distKm(currentPosition, availableSites[0].position))
      ensures availableSites == [] ==>
                choosenSite == old(choosenSite) && distanceFromSite == old(distanceFromSite)
      ensures searchValue == old(searchValue) && currentPosition == old(currentPosition)
      ensures openingHours == old(openingHours)
      ensures cities == old(cities) && selectedCity == old(selectedCity)
      ensures currentFilter == old(currentFilter)
    {
      selectedOpeningHours := value;
      var found: seq<Site> := [];
      if value != "" {
        found := Scan(data, HoursAre(value));
      }
      ShowResults(found);
    }

    /**
      Clicking a site's title on the map: it becomes the selection, whatever
      is shown, and the distance to it is measured.
     */
    method OnClickSite(site: Site)
      requires Valid()
      modifies this
      ensures Valid()
      ensures choosenSite == Some(site)
      ensures distanceFromSite == Some(distKm(currentPosition, site.position))
      ensures availableSites == old(availableSites)
      ensures searchValue == old(searchValue) && currentPosition == old(currentPosition)
      ensures openingHours == old(openingHours) && selectedOpeningHours == old(selectedOpeningHours)
      ensures cities == old(cities) && selectedCity == old(selectedCity)
      ensures currentFilter == old(currentFilter)
    {
      distanceFromSite := Some(distKm(currentPosition, site.position));
      choosenSite := Some(site);
    }

    /**
      Choosing in the city box: the sites in exactly that city. The empty
      choice is searched for like any other city.
     */
    method OnChangeCity(value: string)
      requires Valid()
      modifies this
      ensures Valid()
      ensures selectedCity == value
      ensures availableSites == Matching(data, CityIs(value))
      ensures availableSites != [] ==>
                choosenSite == Some(availableSites[0]) &&
                distanceFromSite == Some(distKm(currentPosition, availableSites[0].position))
      ensures availableSites == [] ==>
                choosenSite == old(choosenSite) && distanceFromSite == old(distanceFromSite)
      ensures searchValue == old(searchValue) && currentPosition == old(currentPosition)
      ensures openingHours == old(openingHours) && selectedOpeningHours == old(selectedOpeningHours)
      ensures cities == old(cities)
      ensures currentFilter == old(currentFilter)
    {
      selectedCity := value;
      var found := Scan(data, CityIs(value));
      ShowResults(found);
    }

    /** Changing the main filter only switches which box is shown. */
    method OnChangeFilter(mode: FilterMode)
      requires Valid()
      modifies this
      ensures Valid()
      ensures currentFilter == mode
      ensures availableSites == old(availableSites)
      ensures choosenSite == old(choosenSite) && distanceFromSite == old(distanceFromSite)
      ensures searchValue == old(searchValue) && currentPosition == old(currentPosition)
      ensures openingHours == old(openingHours) && selectedOpeningHours == old(selectedOpeningHours)
      ensures cities == old(cities) && selectedCity == old(selectedCity)
    {
      currentFilter := mode;
    }

    /**
      The geolocation callback: records the user's position. The distance
      already shown is not measured again.
     */
    method OnPosition(position: Coord)
      requires Valid()
      modifies this
      ensures Valid()
      ensures currentPosition == Some(position)
      ensures availableSites == old(availableSites)
      ensures choosenSite == old(choosenSite) && distanceFromSite == old(distanceFromSite)
      ensures searchValue == old(searchValue)
      ensures openingHours == old(openingHours) && selectedOpeningHours == old(selectedOpeningHours)
      ensures cities == old(cities) && selectedCity == old(selectedCity)
      ensures currentFilter == old(currentFilter)
    {
      currentPosition := Some(position);
    }
  }

  /** Two wineries of the north. */
  function Carmel(): Site { Site(1, "Carmel", Coord(32.7, 35.0), "9-5", "Haifa", "", None) }
  function Golan(): Site { Site(2, "Golan", Coord(33.0, 35.7), "10-6", "Katzrin", "", Some("golan.example")) }

  /**
    Typing "Car", then choosing the empty opening hours, then clearing the
    name: the empty values show nothing and everything, and neither changes
    the selection.
   */
  method EmptyValueScenario(d: (Option<Coord>, Coord) -> int)
  {
    var menu := new Menu([Carmel(), Golan()], d);
    assert Includes("Carmel", "Car");
    assert !Includes("Golan", "Car") by {
      assert !Includes("an", "Car");
      assert "lan"[1..] == "an" && "lan"[..3][0] != "Car"[0];
      assert !Includes("lan", "Car");
      assert "olan"[1..] == "lan" && "olan"[..3][0] != "Car"[0];
      assert !Includes("olan", "Car");
      assert "Golan"[1..] == "olan" && "Golan"[..3][0] != "Car"[0];
    }
    assert Matching([Carmel(), Golan()][1..], NameContains("Car")) == [];
    menu.OnChangeSearchValue("Car");
    assert menu.availableSites == [Carmel()] && menu.choosenSite == Some(Carmel());

    menu.OnChangeOpeningHours("");
    assert menu.availableSites == [] && menu.choosenSite == Some(Carmel());

    menu.OnChangeSearchValue("");
    assert menu.availableSites == [Carmel(), Golan()] && menu.choosenSite == Some(Carmel());
  }

  /**
    Choosing a city, then a city nobody is in, then clicking a site: the
    empty result keeps the previous selection, the click replaces it.
   */
  method StaleSelectionScenario(d: (Option<Coord>, Coord) -> int)
  {
    var menu := new Menu([Carmel(), Golan()], d);
    assert Matching([Carmel(), Golan()][1..], CityIs("Katzrin")) == [Golan()];
    menu.OnChangeCity("Katzrin");
    assert menu.availableSites == [Golan()] && menu.choosenSite == Some(Golan());

    menu.OnChangeCity("Nowhere");
    assert menu.availableSites == [] && menu.choosenSite == Some(Golan());

    menu.OnClickSite(Carmel());
    assert menu.choosenSite == Some(Carmel()) && menu.distanceFromSite == Some(d(None, Carmel().position));
  }
}
