/**
  The map page's display grid (static/js/grid.js): which cells are drawn as visited
  or as a human sighting, which image belongs to a sighting, and the bounding box
  of the known cells.
*/
module Grid {
  import opened Common

  /**
    A grid key, the string "x,y".  Distinct integer pairs give distinct strings, so
    the key is modelled as the pair itself.
  */
  datatype Key = Key(x: int, y: int)

  /** An element of the map list. */
  datatype MapPoint = MapPoint(x: int, y: int)

  /** An element of the detections list; image is the stored file path. */
  datatype Detection = Detection(x: int, y: int, human: bool, image: string)

  /** What a grid cell is drawn as. */
  datatype Mark = Visited | Human

  /**
    The bounding box of the known cells.  NoPoints is what Math.min and Math.max
    give for no arguments: minX = minY = Infinity, maxX = maxY = -Infinity.
  */
  datatype Bounds = NoPoints | Box(minX: int, maxX: int, minY: int, maxY: int)

  function PointKey(p: MapPoint): Key
  {
    Key(p.x, p.y)
  }

  function DetectionKey(d: Detection): Key
  {
    Key(d.x, d.y)
  }

  /** path.split('/').pop(): the text after the last '/', or all of path when it has none. */
  function BaseName(path: string): (name: string)
    ensures '/' !in name
    ensures |name| <= |path|
    decreases |path|
  {
    if path == [] then []
    else if path[|path| - 1] == '/' then []
    else BaseName(path[..|path| - 1]) + [path[|path| - 1]]
  }

  /** The base name is the end of the path, and what precedes it, if anything, is a '/'. */
  lemma {:induction false} BaseNameIsLastSegment(path: string)
    ensures path[|path| - |BaseName(path)|..] == BaseName(path)
    ensures |BaseName(path)| < |path| ==> path[|path| - |BaseName(path)| - 1] == '/'
    decreases |path|
  {
    if path != [] && path[|path| - 1] != '/' {
      var n := |path| - 1;
      var front := path[..n];
      BaseNameIsLastSegment(front);
      var prev := BaseName(front);
      assert BaseName(path) == prev + [path[n]];
      assert path[n - |prev|..] == front[n - |prev|..] + [path[n]];
      assert |prev| < n ==> front[n - |prev| - 1] == path[n - |prev| - 1];
    }
  }

  /** The image name that the last human detection at k leaves in gridImages, if any. */
  function LastHumanImage(detections: seq<Detection>, k: Key): (image: Option<string>)
    ensures image.Some? ==> '/' !in image.value
    decreases |detections|
  {
    if detections == [] then None
    else
      var d := detections[|detections| - 1];
      if d.human && DetectionKey(d) == k then Some(BaseName(d.image))
      else LastHumanImage(detections[..|detections| - 1], k)
  }

  /** The image at k is the base name of the last human detection at k, whatever came before it. */
  lemma {:induction false} LastHumanWins(detections: seq<Detection>, i: nat, k: Key)
    requires i < |detections| && detections[i].human && DetectionKey(detections[i]) == k
    requires forall j :: i < j < |detections| ==> !(detections[j].human && DetectionKey(detections[j]) == k)
    ensures LastHumanImage(detections, k) == Some(BaseName(detections[i].image))
    decreases |detections|
  {
    var n := |detections| - 1;
    if i < n {
      var front := detections[..n];
      assert forall j :: i < j < n ==> front[j] == detections[j];
      LastHumanWins(front, i, k);
    }
  }

  /** Without a human detection at k there is no image at k. */
  lemma {:induction false} NoHumanNoImage(detections: seq<Detection>, k: Key)
    requires forall j :: 0 <= j < |detections| ==> !(detections[j].human && DetectionKey(detections[j]) == k)
    ensures LastHumanImage(detections, k) == None
    decreases |detections|
  {
    if detections != [] {
      var n := |detections| - 1;
      var front := detections[..n];
      assert forall j :: 0 <= j < n ==> front[j] == detections[j];
      NoHumanNoImage(front, k);
    }
  }

  /** A non-human detection changes no grid cell and no image, wherever it stands in the list. */
  lemma {:induction false} NonHumanIgnored(before: seq<Detection>, d: Detection, after: seq<Detection>, k: Key)
    requires !d.human
    ensures LastHumanImage(before + [d] + after, k) == LastHumanImage(before + after, k)
    decreases |after|
  {
    var a, b := before + [d] + after, before + after;
    if after == [] {
      assert a[|a| - 1] == d && a[..|a| - 1] == before;
      assert b == before;
    } else {
      var n := |after| - 1;
      assert a[|a| - 1] == after[n] && b[|b| - 1] == after[n];
      assert a[..|a| - 1] == before + [d] + after[..n];
      assert b[..|b| - 1] == before + after[..n];
      NonHumanIgnored(before, d, after[..n], k);
    }
  }

  function Min(a: int, b: int): int
  {
    if a <= b then a else b
  }

  function Max(a: int, b: int): int
  {
    if a <= b then b else a
  }

  /** getBounds: the smallest box holding every key; every bound is attained. */
  function GetBounds(keys: seq<Key>): (b: Bounds)
    ensures b.NoPoints? <==> keys == []
    ensures b.Box? ==> forall k :: k in keys ==> b.minX <= k.x <= b.maxX && b.minY <= k.y <= b.maxY
    ensures b.Box? ==> exists k :: k in keys && k.x == b.minX
    ensures b.Box? ==> exists k :: k in keys && k.x == b.maxX
    ensures b.Box? ==> exists k :: k in keys && k.y == b.minY
    ensures b.Box? ==> exists k :: k in keys && k.y == b.maxY
    decreases |keys|
  {
    if keys == [] then NoPoints
    else
      var last := keys[|keys| - 1];
      var front := keys[..|keys| - 1];
      assert forall k :: k in keys <==> k in front || k == last;
      match GetBounds(front)
      case NoPoints => Box(last.x, last.x, last.y, last.y)
      case Box(minX, maxX, minY, maxY) =>
        Box(Min(minX, last.x), Max(maxX, last.x), Min(minY, last.y), Max(maxY, last.y))
  }

  /** The bounds of the known-point keys are the bounds of the map points they come from. */
  lemma BoundsOfKnownPoints(points: seq<MapPoint>, knownPoints: seq<Key>)
    requires forall j :: 0 <= j < |points| ==> PointKey(points[j]) in knownPoints
    requires forall k :: k in knownPoints ==> exists j :: 0 <= j < |points| && PointKey(points[j]) == k
    ensures GetBounds(knownPoints).NoPoints? <==> points == []
    ensures GetBounds(knownPoints).Box? ==>
              var b := GetBounds(knownPoints);
              && (forall i :: 0 <= i < |points| ==> b.minX <= points[i].x <= b.maxX && b.minY <= points[i].y <= b.maxY)
              && (exists i :: 0 <= i < |points| && points[i].x == b.minX)
              && (exists i :: 0 <= i < |points| && points[i].x == b.maxX)
              && (exists i :: 0 <= i < |points| && points[i].y == b.minY)
              && (exists i :: 0 <= i < |points| && points[i].y == b.maxY)
  {
    var b := GetBounds(knownPoints);
    if knownPoints != [] {
      assert knownPoints[0] in knownPoints;
    }
    if points != [] {
      assert PointKey(points[0]) in knownPoints;
      forall i | 0 <= i < |points|
        ensures b.minX <= points[i].x <= b.maxX && b.minY <= points[i].y <= b.maxY
      {
        assert PointKey(points[i]) in knownPoints;
      }
      var k0 :| k0 in knownPoints && k0.x == b.minX;
      var k1 :| k1 in knownPoints && k1.x == b.maxX;
      var k2 :| k2 in knownPoints && k2.y == b.minY;
      var k3 :| k3 in knownPoints && k3.y == b.maxY;
      var i0 :| 0 <= i0 < |points| && PointKey(points[i0]) == k0;
      var i1 :| 0 <= i1 < |points| && PointKey(points[i1]) == k1;
      var i2 :| 0 <= i2 < |points| && PointKey(points[i2]) == k2;
      var i3 :| 0 <= i3 < |points| && PointKey(points[i3]) == k3;
    }
  }

  /**
    buildGrid: every map point is drawn, as visited unless a human was detected
    there; a human detection draws its cell even off the map and names its image;
    the bounds come from the map points alone.
  */
  method BuildGrid(points: seq<MapPoint>, detections: seq<Detection>)
    returns (grid: map<Key, Mark>, gridImages: map<Key, string>, bounds: Bounds)
    ensures forall i :: 0 <= i < |points| ==> PointKey(points[i]) in grid
    ensures forall k :: k in grid <==> (exists i :: 0 <= i < |points| && PointKey(points[i]) == k) || k in gridImages
    ensures forall k :: k in grid ==> grid[k] == if k in gridImages then Human else Visited
    ensures forall k :: LastHumanImage(detections, k) == if k in gridImages then Some(gridImages[k]) else None
    ensures forall k :: k in gridImages ==> '/' !in gridImages[k]
    ensures bounds.NoPoints? <==> points == []
    ensures bounds.Box? ==>
              forall i :: 0 <= i < |points| ==>
                bounds.minX <= points[i].x <= bounds.maxX && bounds.minY <= points[i].y <= bounds.maxY
    ensures bounds.Box? ==>
              && (exists i :: 0 <= i < |points| && points[i].x == bounds.minX)
              && (exists i :: 0 <= i < |points| && points[i].x == bounds.maxX)
              && (exists i :: 0 <= i < |points| && points[i].y == bounds.minY)
              && (exists i :: 0 <= i < |points| && points[i].y == bounds.maxY)
  {
    var knownPoints: seq<Key> := [];
    grid := map[];
    gridImages := map[];

    for i := 0 to |points|
      invariant NoDuplicates(knownPoints)
      invariant forall j :: 0 <= j < i ==> PointKey(points[j]) in knownPoints
      invariant forall k :: k in knownPoints ==> exists j :: 0 <= j < i && PointKey(points[j]) == k
      invariant forall k :: k in grid <==> k in knownPoints
      invariant forall k :: k in grid ==> grid[k] == Visited
    {
      var key := PointKey(points[i]);
      if key !in knownPoints {
        knownPoints := knownPoints + [key];
      }
      grid := grid[key := Visited];
    }

    for i := 0 to |detections|
      invariant forall k :: LastHumanImage(detections[..i], k) == if k in gridImages then Some(gridImages[k]) else None
      invariant forall k :: k in grid <==> k in knownPoints || k in gridImages
      invariant forall k :: k in grid ==> grid[k] == if k in gridImages then Human else Visited
    {
      assert detections[..i + 1][..i] == detections[..i];
      var d := detections[i];
      var key := DetectionKey(d);
      if d.human {
        grid := grid[key := Human];
        gridImages := gridImages[key := BaseName(d.image)];
      }
    }
    assert detections[..|detections|] == detections;

    bounds := GetBounds(knownPoints);
    BoundsOfKnownPoints(points, knownPoints);
  }
}
