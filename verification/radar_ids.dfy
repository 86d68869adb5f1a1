/**
 * Radar identifiers. A station has a five-character base id such as "IDR71"; a product adds one
 * range digit: 1 for 64 km, 2 for 128 km, 3 for 256 km and 4 for 512 km ("IDR713" is the 256 km
 * loop of IDR71). Encoding replaces the digit of a six-character id and appends to anything else;
 * parsing splits a six-character id and treats every other id as a bare base at 256 km.
 */
module RadarIds {
  import opened Wrappers

  /** The four ranges a station offers. */
  datatype Range = Km64 | Km128 | Km256 | Km512
  {
    function Km(): (km: nat)
      ensures km == 64 || km == 128 || km == 256 || km == 512
    {
      match this
      case Km64 => 64
      case Km128 => 128
      case Km256 => 256
      case Km512 => 512
    }

    /** The digit that names this range in a radar id. */
    function Suffix(): (c: char)
      ensures '1' <= c <= '4'
    {
      match this
      case Km64 => '1'
      case Km128 => '2'
      case Km256 => '3'
      case Km512 => '4'
    }
  }

  /** Every range, in the order the stations list them. */
  const AllRanges: seq<Range> := [Km64, Km128, Km256, Km512]

  /** The range an id without a known digit is read as, and the one first displayed. */
  const DefaultRange: Range := Km256

  /** The digit table read backwards; nothing for a character that is not a range digit. */
  function RangeOfSuffix(c: char): (r: Option<Range>)
    ensures r.Some? <==> '1' <= c <= '4'
    ensures r.Some? ==> r.value.Suffix() == c
  {
    if c == '1' then Some(Km64)
    else if c == '2' then Some(Km128)
    else if c == '3' then Some(Km256)
    else if c == '4' then Some(Km512)
    else None
  }

  /** Every range is named by exactly one digit, and reading it back gives the range. */
  lemma SuffixRoundTrip(r: Range)
    ensures RangeOfSuffix(r.Suffix()) == Some(r)
  {
  }

  /** Different ranges have different kilometre values and different digits. */
  lemma RangesDistinct(r: Range, s: Range)
    requires r != s
    ensures r.Km() != s.Km() && r.Suffix() != s.Suffix()
  {
  }

  /** One entry of a station's range list: the range and the full id that selects it. */
  datatype RangeOption = RangeOption(km: Range, radarId: string)

  /** A station's range list: one entry per offered range, in the order offered. */
  function CreateRanges(baseId: string, available: seq<Range>): (out: seq<RangeOption>)
    ensures |out| == |available|
    ensures forall i :: 0 <= i < |out| ==> out[i].km == available[i]
    ensures forall i :: 0 <= i < |out| ==> |out[i].radarId| == |baseId| + 1
    ensures forall i :: 0 <= i < |out| ==> out[i].radarId[..|baseId|] == baseId
    ensures forall i :: 0 <= i < |out| ==> out[i].radarId[|baseId|] == available[i].Suffix()
  {
    seq(|available|, i requires 0 <= i < |available| => RangeOption(available[i], baseId + [available[i].Suffix()]))
  }

  /**
   * The id for `range` on the station `baseId` names: a six-character id loses its last
   * character first, any other id keeps all of its characters.
   */
  function RadarIdForRange(baseId: string, range: Range): (id: string)
    ensures |baseId| == 6 ==> |id| == 6 && id[..5] == baseId[..5]
    ensures |baseId| != 6 ==> |id| == |baseId| + 1 && id[..|baseId|] == baseId
    ensures id[|id| - 1] == range.Suffix()
  {
    var base := if |baseId| == 6 then baseId[..5] else baseId;
    base + [range.Suffix()]
  }

  /** An id split into the station it names and the range it selects. */
  datatype ParsedId = ParsedId(baseId: string, range: Range)

  /**
   * Reading an id: a six-character id is its first five characters plus a range digit, read as
   * 256 km when the digit is unknown; every other id is a base id at 256 km.
   */
  function ParseRadarId(radarId: string): (p: ParsedId)
    ensures |radarId| == 6 ==> p.baseId == radarId[..5]
    ensures |radarId| != 6 ==> p == ParsedId(radarId, DefaultRange)
    ensures |radarId| == 6 && '1' <= radarId[5] <= '4' ==> p.range.Suffix() == radarId[5]
    ensures |radarId| == 6 && !('1' <= radarId[5] <= '4') ==> p.range == DefaultRange
  {
    if |radarId| == 6 then
      ParsedId(radarId[..5], RangeOfSuffix(radarId[5]).GetOr(DefaultRange))
    else
      ParsedId(radarId, DefaultRange)
  }

  /** Encoding a five-character base and reading it back gives the base and the range. */
  lemma ParseAfterEncode(baseId: string, range: Range)
    requires |baseId| == 5
    ensures ParseRadarId(RadarIdForRange(baseId, range)) == ParsedId(baseId, range)
  {
    SuffixRoundTrip(range);
  }

  /** A six-character id is re-pointed at the new range on its own station. */
  lemma ParseAfterReencode(radarId: string, range: Range)
    requires |radarId| == 6
    ensures ParseRadarId(RadarIdForRange(radarId, range)) == ParsedId(radarId[..5], range)
  {
    SuffixRoundTrip(range);
  }

  /** A six-character id ending in a range digit is rebuilt exactly from its parse. */
  lemma EncodeAfterParse(radarId: string)
    requires |radarId| == 6 && '1' <= radarId[5] <= '4'
    ensures var p := ParseRadarId(radarId); RadarIdForRange(p.baseId, p.range) == radarId
  {
    var p := ParseRadarId(radarId);
    assert p.baseId + [p.range.Suffix()] == radarId[..5] + [radarId[5]];
    assert radarId[..5] + [radarId[5]] == radarId;
  }

  /** For five- and six-character ids, asking again for the same range changes nothing. */
  lemma ReencodeIdempotent(baseId: string, range: Range)
    requires |baseId| == 5 || |baseId| == 6
    ensures RadarIdForRange(RadarIdForRange(baseId, range), range) == RadarIdForRange(baseId, range)
  {
    var id := RadarIdForRange(baseId, range);
    assert id[..5] + [range.Suffix()] == id;
  }

  /** For every other length, asking again appends another digit. */
  lemma ReencodeGrowsOtherIds(baseId: string, range: Range)
    requires |baseId| != 5 && |baseId| != 6
    ensures |RadarIdForRange(RadarIdForRange(baseId, range), range)| == |baseId| + 2
  {
  }

  /** Each entry of a five-character station's range list selects that station at that range. */
  lemma CreateRangesParse(baseId: string, available: seq<Range>, i: nat)
    requires |baseId| == 5 && i < |available|
    ensures ParseRadarId(CreateRanges(baseId, available)[i].radarId) == ParsedId(baseId, available[i])
    ensures CreateRanges(baseId, available)[i].radarId == RadarIdForRange(baseId, available[i])
  {
    ParseAfterEncode(baseId, available[i]);
  }
}
