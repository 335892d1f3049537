/**
  The part of the csv command that connects the loader to the ranker: load
  the records, give up on any error, otherwise sort them in place and pick
  the closest and farthest five. Command-line handling and printing are not
  part of this model.
 */
module Pipeline {
  import opened Wrappers
  import opened Geo
  import opened Loader
  import opened Ranker

  /** geoDistanceWithCSV from the load to the selection. On a load error the
      partial records are dropped and only the error is returned; otherwise
      `sorted` is the loaded records in ascending distance order and
      `extremes` is the selection made from it. */
  method GeoDistanceWithCSV(input: seq<ReadResult>, targetLat: real, targetLong: real, num: Numerics)
    returns (err: Option<LoadError>, sorted: seq<GeoRecord>, extremes: Extremes)
    ensures err == Load(input, targetLat, targetLong, num).err
    ensures err.Some? ==> sorted == [] && extremes == Extremes([], [])
    ensures err.None? ==>
      && SortedByDist(sorted)
      && multiset(sorted) == multiset(Load(input, targetLat, targetLong, num).records)
      && extremes == SelectExtremes(sorted)
  {
    var records;
    records, err := DistanceWithCSVReader(input, targetLat, targetLong, num);
    if err.Some? {
      return err, [], Extremes([], []);
    }
    var g := new GeoRecord[|records|](i requires 0 <= i < |records| => records[i]);
    assert g[..] == records;
    Sort(g);
    sorted := g[..];
    extremes := SelectExtremes(sorted);
  }
}
