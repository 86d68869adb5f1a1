/**
 * The table of Bureau of Meteorology radar stations and the lookups over it: by base id, by full
 * radar id, and the station nearest to a latitude and longitude.
 */
module Radars {
  import opened Wrappers
  import opened RadarIds
  import opened Lookup

  datatype RadarStation = RadarStation(
    id: string,
    name: string,
    city: string,
    state: string,
    lat: real,
    lng: real,
    ranges: seq<RangeOption>)

  /** A table entry offering all four ranges, as every station does. */
  function Station(id: string, name: string, city: string, state: string, lat: real, lng: real): (s: RadarStation)
    ensures s.id == id && s.lat == lat && s.lng == lng
    ensures |s.ranges| == |AllRanges|
  {
    RadarStation(id, name, city, state, lat, lng, CreateRanges(id, AllRanges))
  }

  const RadarStations: seq<RadarStation> := [
    Station("IDR71", "Terrey Hills", "Sydney", "NSW", -33.701, 151.210),
    Station("IDR04", "Williamtown", "Newcastle", "NSW", -32.790, 151.833),
    Station("IDR03", "Wollongong", "Wollongong", "NSW", -34.263, 150.875),
    Station("IDR40", "Canberra", "Canberra", "ACT", -35.662, 149.512),
    Station("IDR28", "Grafton", "Coffs Harbour", "NSW", -29.622, 152.951),
    Station("IDR02", "Melbourne", "Melbourne", "VIC", -37.856, 144.756),
    Station("IDR66", "Marburg", "Brisbane", "QLD", -27.608, 152.540),
    Station("IDR50", "Marburg", "Gold Coast", "QLD", -27.608, 152.540),
    Station("IDR94", "Gympie", "Sunshine Coast", "QLD", -26.258, 152.577),
    Station("IDR73", "Townsville", "Townsville", "QLD", -19.420, 146.550),
    Station("IDR08", "Cairns", "Cairns", "QLD", -16.818, 145.683),
    Station("IDR70", "Perth", "Perth", "WA", -32.392, 115.867),
    Station("IDR64", "Adelaide", "Adelaide", "SA", -34.617, 138.469),
    Station("IDR76", "Hobart", "Hobart", "TAS", -43.112, 147.806),
    Station("IDR52", "West Takone", "Launceston", "TAS", -41.181, 145.579),
    Station("IDR63", "Darwin", "Darwin", "NT", -12.457, 130.926),
    Station("IDR25", "Alice Springs", "Alice Springs", "NT", -23.796, 133.889)
  ]

  /** Every base id in the table has five characters and names one station only. */
  lemma StationIdsWellFormed()
    ensures forall i :: 0 <= i < |RadarStations| ==> |RadarStations[i].id| == 5
    ensures forall i, j :: 0 <= i < j < |RadarStations| ==> RadarStations[i].id != RadarStations[j].id
  {
  }

  /** The first station whose base id is `id`. */
  function GetStationById(id: string): (s: Option<RadarStation>)
    ensures s.Some? ==> s.value in RadarStations && s.value.id == id
    ensures s.None? <==> forall i :: 0 <= i < |RadarStations| ==> RadarStations[i].id != id
  {
    match FindFirst(RadarStations, (st: RadarStation) => st.id == id)
    case None => None
    case Some(i) => Some(RadarStations[i])
  }

  /** The station a full radar id selects: the station whose base id the parse yields. */
  function GetStationByRadarId(radarId: string): (s: Option<RadarStation>)
    ensures s.Some? ==> s.value in RadarStations && s.value.id == ParseRadarId(radarId).baseId
    ensures s.None? <==> forall i :: 0 <= i < |RadarStations| ==> RadarStations[i].id != ParseRadarId(radarId).baseId
  {
    GetStationById(ParseRadarId(radarId).baseId)
  }

  /** Looking a station up by its own base id finds that station. */
  lemma StationByOwnId(i: nat)
    requires i < |RadarStations|
    ensures GetStationById(RadarStations[i].id) == Some(RadarStations[i])
  {
    StationIdsWellFormed();
  }

  /** Every full id in a station's range list leads back to that station. */
  lemma StationByRangeId(i: nat, k: nat)
    requires i < |RadarStations| && k < |RadarStations[i].ranges|
    ensures GetStationByRadarId(RadarStations[i].ranges[k].radarId) == Some(RadarStations[i])
  {
    StationIdsWellFormed();
    CreateRangesParse(RadarStations[i].id, AllRanges, k);
    StationByOwnId(i);
  }

  /** Where each station stands, in table order. */
  function StationCoords(): (cs: seq<Coord>)
    ensures |cs| == |RadarStations|
    ensures forall i :: 0 <= i < |cs| ==> cs[i] == Coord(RadarStations[i].lat, RadarStations[i].lng)
  {
    seq(|RadarStations|, i requires 0 <= i < |RadarStations| => Coord(RadarStations[i].lat, RadarStations[i].lng))
  }

  /** The station nearest to (`lat`, `lng`), the earlier one on a tie. */
  method GetRadarForLocation(lat: real, lng: real) returns (station: RadarStation)
    ensures exists i: nat :: EarliestNearest(StationCoords(), Coord(lat, lng), i) && station == RadarStations[i]
  {
    var best := Nearest(StationCoords(), Coord(lat, lng));
    station := RadarStations[best.GetOr(0)];
  }

  /**
   * The Gold Coast station stands exactly where the Brisbane station does and comes after it,
   * so the nearest-station search never picks it.
   */
  lemma GoldCoastNeverNearest(at: Coord, i: nat)
    requires EarliestNearest(StationCoords(), at, i)
    ensures RadarStations[i].id != "IDR50"
  {
    var cs := StationCoords();
    assert cs[6] == cs[7];
    StationIdsWellFormed();
    assert RadarStations[7].id == "IDR50";
  }
}
