/**
  The older server (app.py): a list of visited map points kept free of duplicate
  coordinates, and an append-only list of detection records.
*/
module LegacyServer {
  import opened Common

  /** An element of the map list (data/map.json); "visited" is always true. */
  datatype MapEntry = MapEntry(x: int, y: int, visited: bool)

  /**
    An element of the detections list (data/detections.json).  The detector's verdict
    is stored as it came back, so its type is left open.
  */
  datatype DetectionRecord<H> = DetectionRecord(x: int, y: int, human: H, image: string)

  /** The position endpoint's JSON body; a key may be missing. */
  datatype PositionBody = PositionBody(x: Option<int>, y: Option<int>)

  datatype Error =
    | MissingData         // "Missing data": no image, or x or y missing or not an integer
    | MissingCoordinates  // "Missing x or y in JSON"

  /** Some map entry is at (x, y). */
  predicate HasPoint(mapData: seq<MapEntry>, x: int, y: int)
  {
    exists i :: 0 <= i < |mapData| && mapData[i].x == x && mapData[i].y == y
  }

  /** No two map entries are at the same coordinates. */
  predicate UniqueCoordinates(mapData: seq<MapEntry>)
  {
    forall i, j :: 0 <= i < j < |mapData| ==> !(mapData[i].x == mapData[j].x && mapData[i].y == mapData[j].y)
  }

  /**
    The map after a report of (x, y): the old entries, untouched and in order,
    followed by a new entry only if (x, y) was missing.
  */
  function AddIfAbsent(mapData: seq<MapEntry>, x: int, y: int): (r: seq<MapEntry>)
    ensures |mapData| <= |r| <= |mapData| + 1
    ensures r[..|mapData|] == mapData
    ensures |r| == |mapData| + 1 <==> !HasPoint(mapData, x, y)
    ensures forall a, b :: HasPoint(r, a, b) <==> HasPoint(mapData, a, b) || (a == x && b == y)
    ensures UniqueCoordinates(mapData) ==> UniqueCoordinates(r)
  {
    if HasPoint(mapData, x, y) then mapData
    else
      var r := mapData + [MapEntry(x, y, true)];
      assert r[|mapData|] == MapEntry(x, y, true);
      assert forall i :: 0 <= i < |mapData| ==> r[i] == mapData[i];
      r
  }

  /** The two lists the endpoints load, update and save. */
  class MapStore<H> {
    var mapData: seq<MapEntry>
    var detections: seq<DetectionRecord<H>>

    /** The map holds each coordinate pair at most once. */
    ghost predicate Valid()
      reads this
    {
      UniqueCoordinates(mapData)
    }

    /** What the endpoints read before anything has been saved: two empty lists. */
    constructor ()
      ensures Valid() && mapData == [] && detections == []
    {
      mapData := [];
      detections := [];
    }

    /**
      The upload endpoint, after the image has been saved to imagePath and classified
      as isHuman: mark the cell on the map and log one detection record.
    */
    method Upload(imageProvided: bool, x: Option<int>, y: Option<int>, isHuman: H, imagePath: string)
      returns (r: Result<H, Error>)
      requires Valid()
      modifies this
      ensures Valid()
      ensures !imageProvided || x.None? || y.None? ==>
                r == Err(MissingData) && mapData == old(mapData) && detections == old(detections)
      ensures imageProvided && x.Some? && y.Some? ==>
                && r == Ok(isHuman)
                && mapData == AddIfAbsent(old(mapData), x.value, y.value)
                && detections == old(detections) + [DetectionRecord(x.value, y.value, isHuman, imagePath)]
    {
      if !imageProvided || x.None? || y.None? {
        return Err(MissingData);
      }
      mapData := AddIfAbsent(mapData, x.value, y.value);
      detections := detections + [DetectionRecord(x.value, y.value, isHuman, imagePath)];
      r := Ok(isHuman);
    }

    /** The position endpoint: mark the reported cell on the map and echo it. */
    method Position(body: Option<PositionBody>) returns (r: Result<Cell, Error>)
      requires Valid()
      modifies this
      ensures Valid()
      ensures detections == old(detections)
      ensures body.None? || body.value.x.None? || body.value.y.None? ==>
                r == Err(MissingCoordinates) && mapData == old(mapData)
      ensures body.Some? && body.value.x.Some? && body.value.y.Some? ==>
                && r == Ok(Cell(body.value.x.value, body.value.y.value))
                && mapData == AddIfAbsent(old(mapData), body.value.x.value, body.value.y.value)
    {
      if body.None? || body.value.x.None? || body.value.y.None? {
        return Err(MissingCoordinates);
      }
      var x, y := body.value.x.value, body.value.y.value;
      mapData := AddIfAbsent(mapData, x, y);
      r := Ok(Cell(x, y));
    }
  }
}
