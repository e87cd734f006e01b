/** The start and goal pickers of the demo script (`find_start_pixel`,
    `find_goal_pixel`): row-major scans over the 255-pixels of the binarised
    maze with the sentinel `1e9` as the initial best score. */
module PixelSelect {
  import opened Wrappers
  import opened Grid
  import opened Scan

  /** `find_start_pixel`: the 255-pixel closest to the image border, the first
      in row-major order among equally close ones; `None` when no 255-pixel
      scores below `1e9`, which on any image under `1e9` pixels high and wide
      means when there is no 255-pixel at all. The image is a value, so it is
      left unchanged. */
  method FindStartPixel(binary: Image) returns (pos: Option<Cell>)
    requires IsGrid(binary)
    ensures pos.Some? ==> HasValue(binary, FREE_PIXEL, pos.value)
    ensures pos.Some? ==> forall c :: HasValue(binary, FREE_PIXEL, c) ==>
              EdgeDistance(binary, pos.value) <= EdgeDistance(binary, c)
    ensures pos.Some? ==> forall c :: HasValue(binary, FREE_PIXEL, c) && RowMajorBefore(c, pos.value) ==>
              EdgeDistance(binary, pos.value) < EdgeDistance(binary, c)
    ensures pos.None? <==> forall c :: HasValue(binary, FREE_PIXEL, c) ==> EdgeDistance(binary, c) >= PIXEL_SENTINEL
    ensures Height(binary) < PIXEL_SENTINEL && Width(binary) < PIXEL_SENTINEL ==>
              (pos.None? <==> forall c :: !HasValue(binary, FREE_PIXEL, c))
  {
    var score := c => EdgeDistance(binary, c);
    pos := ArgminScan(binary, FREE_PIXEL, score, Finite(PIXEL_SENTINEL));
    if pos.Some? {
      FirstMinBeatsAll(binary, FREE_PIXEL, score, PIXEL_SENTINEL, pos.value);
    } else {
      NoCandidate(binary, FREE_PIXEL, score, PIXEL_SENTINEL);
    }
    if Height(binary) < PIXEL_SENTINEL && Width(binary) < PIXEL_SENTINEL {
      forall c | HasValue(binary, FREE_PIXEL, c)
        ensures EdgeDistance(binary, c) < PIXEL_SENTINEL
      {
        SentinelNeverBinds(binary, c);
      }
    }
  }

  /** `find_goal_pixel`: the 255-pixel with the least Manhattan distance to
      `(h // 2, w // 2)`, the first in row-major order among ties; `None`
      exactly as for `FindStartPixel`. */
  method FindGoalPixel(binary: Image) returns (pos: Option<Cell>)
    requires IsGrid(binary)
    ensures pos.Some? ==> HasValue(binary, FREE_PIXEL, pos.value)
    ensures pos.Some? ==> forall c :: HasValue(binary, FREE_PIXEL, c) ==>
              CentreDistance(binary, pos.value) <= CentreDistance(binary, c)
    ensures pos.Some? ==> forall c :: HasValue(binary, FREE_PIXEL, c) && RowMajorBefore(c, pos.value) ==>
              CentreDistance(binary, pos.value) < CentreDistance(binary, c)
    ensures pos.None? <==> forall c :: HasValue(binary, FREE_PIXEL, c) ==> CentreDistance(binary, c) >= PIXEL_SENTINEL
    ensures Height(binary) < PIXEL_SENTINEL && Width(binary) < PIXEL_SENTINEL ==>
              (pos.None? <==> forall c :: !HasValue(binary, FREE_PIXEL, c))
  {
    var score := c => CentreDistance(binary, c);
    pos := ArgminScan(binary, FREE_PIXEL, score, Finite(PIXEL_SENTINEL));
    if pos.Some? {
      FirstMinBeatsAll(binary, FREE_PIXEL, score, PIXEL_SENTINEL, pos.value);
    } else {
      NoCandidate(binary, FREE_PIXEL, score, PIXEL_SENTINEL);
    }
    if Height(binary) < PIXEL_SENTINEL && Width(binary) < PIXEL_SENTINEL {
      forall c | HasValue(binary, FREE_PIXEL, c)
        ensures CentreDistance(binary, c) < PIXEL_SENTINEL
      {
        SentinelNeverBinds(binary, c);
      }
    }
  }
}
