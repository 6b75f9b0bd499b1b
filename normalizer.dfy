/** The face normalizer: choose one of the detector's boxes and compute the square
    region of the frame that is cut out and resampled to 112x112 (`crop_face`).
    Pixels are not modelled, only the rectangle. */
module Normalizer {
  import opened Prelude

  /** A detector box, coordinates already truncated to integers:
      columns left..right, rows top..bottom. */
  datatype Box = Box(left: int, top: int, right: int, bottom: int)

  /** Slice bounds `top:bottom` on the rows and `left:right` on the columns of a frame.
      The crop computes them as plain integers (`Square`); `Cut` turns them into the part
      of the frame numpy actually selects. */
  datatype Rect = Rect(top: int, bottom: int, left: int, right: int)

  /** What the face detector reports for one image: it raised, or it gave a list of boxes. */
  datatype Detection = DetectorError | Detected(boxes: seq<Box>)

  /** The four ways crop_face ends: no box was ever selected (the selected box is still
      None and indexing it raises), the selected face is too small (the unchanged image is
      returned on its own), the slice of the frame comes out empty (resizing it raises), or
      the region cut out of the frame is returned with the selected box. */
  datatype CropResult = NoBox | TooSmall | EmptyCrop | Cropped(region: Rect, box: Box)

  /** Faces shorter than this are not cropped. */
  const MinFaceHeight := 60

  function Extent(b: Box): int {
    b.bottom - b.top
  }

  predicate HasFace(d: Detection) {
    d.Detected? && |d.boxes| > 0
  }

  /** Box k is the one crop_face keeps: taller than zero, taller than every box before it
      and at least as tall as every box after it. */
  predicate IsFirstTallest(boxes: seq<Box>, k: int) {
    0 <= k < |boxes| &&
    Extent(boxes[k]) > 0 &&
    (forall i :: 0 <= i < k ==> Extent(boxes[i]) < Extent(boxes[k])) &&
    (forall i :: k < i < |boxes| ==> Extent(boxes[i]) <= Extent(boxes[k]))
  }

  /** The index of the box the scan selects, if any: the last box replaces the choice
      among the earlier ones when it is strictly taller (the earlier choice's height
      starting from 0). */
  function Tallest(boxes: seq<Box>): (k: Option<nat>)
    ensures k.Some? ==> k.value < |boxes|
    decreases |boxes|
  {
    if boxes == [] then None
    else
      var k := Tallest(boxes[..|boxes| - 1]);
      var best := if k.None? then 0 else Extent(boxes[k.value]);
      if Extent(boxes[|boxes| - 1]) > best then Some(|boxes| - 1) else k
  }

  /** The scan selects a box exactly when some box has positive height, and then the
      first of the tallest boxes. */
  lemma {:induction false} TallestSelects(boxes: seq<Box>)
    ensures Tallest(boxes).None? <==> forall i :: 0 <= i < |boxes| ==> Extent(boxes[i]) <= 0
    ensures Tallest(boxes).Some? ==> IsFirstTallest(boxes, Tallest(boxes).value)
    decreases |boxes|
  {
    if boxes != [] {
      var init := boxes[..|boxes| - 1];
      assert forall i :: 0 <= i < |init| ==> init[i] == boxes[i];
      TallestSelects(init);
    }
  }

  /** The first-tallest box is unique: the selection is determined by the extents. */
  lemma FirstTallestUnique(boxes: seq<Box>, k: int, j: int)
    requires IsFirstTallest(boxes, k) && IsFirstTallest(boxes, j)
    ensures k == j
  {
  }

  /** The square crop geometry for a box that is tall enough (lines 78-91). */
  function Square(width: int, b: Box): (r: Rect)
    requires Extent(b) >= MinFaceHeight
    // the top edge stays inside the frame and the bottom edge is kept
    ensures 0 <= r.top && r.bottom == b.bottom
    // the top moves up by extent/12, rounded to a whole pixel, unless the frame edge stops it
    ensures 12 * (b.top - r.top) < Extent(b) + 12
    ensures r.top == 0 || 12 * (b.top - r.top) >= Extent(b)
    // for a box that starts inside the frame, the crop only grows
    ensures b.top >= 0 ==> r.top <= b.top && r.bottom - r.top >= Extent(b)
    // the crop is a square
    ensures r.right - r.left == r.bottom - r.top
    // it is centred on the box to within a pixel, unless pushed against a side of the frame
    ensures r.left == 0 || r.left == width - (r.bottom - r.top) - 1 ||
            -2 <= (r.left + r.right) - (b.left + b.right) <= 2
    // when it is narrower than the frame it lies within the frame's columns
    ensures r.bottom - r.top < width ==> 0 <= r.left && r.right <= width - 1
    // which of the three placements applies: centred when that fits, pushed to the left
    // edge when the centred square starts left of the frame, pushed to the right otherwise
    ensures var h := r.bottom - r.top;
      0 <= b.left + b.right - h - 2 && b.left + b.right + h + 2 < 2 * width ==>
        -2 <= (r.left + r.right) - (b.left + b.right) <= 2 && 0 <= r.left && r.right < width
    ensures var h := r.bottom - r.top;
      b.left + b.right + 2 < h ==> r.left == 0
    ensures var h := r.bottom - r.top;
      0 <= b.left + b.right - h - 2 && b.left + b.right + h - 2 >= 2 * width ==>
        r.left == width - h - 1
  {
    var top0 := TruncDiv(12 * b.top - Extent(b), 12);
    var top := if top0 < 0 then 0 else top0;
    var height := b.bottom - top;
    var middle := TruncDiv(b.left + b.right, 2);
    var left0 := TruncDiv(2 * middle - height, 2);
    var left := if left0 < 0 then 0 else if left0 + height >= width then width - height - 1 else left0;
    Rect(top, b.bottom, left, left + height)
  }

  /** The index numpy uses for the slice bound i on an axis of n entries: a negative bound
      counts back from the end, and the result is clipped to 0..n. */
  function SliceBound(n: nat, i: int): (j: nat)
    ensures j <= n
  {
    if i < 0 then (if i + n < 0 then 0 else i + n) else if i > n then n else i
  }

  /** The part of a frame `height` rows by `width` columns that `img[top:bottom, left:right]`
      selects. */
  function Cut(height: nat, width: nat, r: Rect): Rect {
    Rect(SliceBound(height, r.top), SliceBound(height, r.bottom),
         SliceBound(width, r.left), SliceBound(width, r.right))
  }

  predicate IsEmpty(r: Rect) {
    r.bottom <= r.top || r.right <= r.left
  }

  /** For a box that reaches into the frame (`bottom > 0`) the crop has positive height.
      Then the rows of the slice come out empty exactly when the crop's top is at or past
      row `height`, that is, below the frame's last row; and for a frame at least two columns wide, the columns come out
      empty exactly when the left bound is -1, which happens only for a square exactly as
      wide as the frame that is pushed to the right: `img[:, -1:W-1]` selects nothing. */
  lemma CutEmpty(height: nat, width: nat, b: Box)
    requires Extent(b) >= MinFaceHeight
    ensures b.bottom > 0 ==> Square(width, b).top < Square(width, b).bottom
    ensures var r := Square(width, b);
            var c := Cut(height, width, r);
            r.top < r.bottom ==>
              (c.bottom <= c.top <==> height <= r.top) &&
              (width >= 2 ==> (c.right <= c.left <==> r.left == -1))
    ensures Square(width, b).left == -1 ==>
            Square(width, b).bottom - Square(width, b).top == width
  {
    var r := Square(width, b);
    var h := r.bottom - r.top;
    var middle := TruncDiv(b.left + b.right, 2);
    var left0 := TruncDiv(2 * middle - h, 2);
    assert r.left == if left0 < 0 then 0 else if left0 + h >= width then width - h - 1 else left0;
    assert r.right == r.left + h;
  }

  /** When the box starts inside the frame and its square fits inside the frame, the slice
      cuts out exactly the square. */
  lemma CutInside(height: nat, width: nat, b: Box)
    requires Extent(b) >= MinFaceHeight && 0 <= b.top && b.bottom <= height
    requires Square(width, b).bottom - Square(width, b).top < width
    ensures Cut(height, width, Square(width, b)) == Square(width, b)
    ensures !IsEmpty(Square(width, b))
  {
  }

  /** What crop_face computes for a frame `height` rows by `width` columns. */
  function Crop(height: nat, width: nat, boxes: seq<Box>): CropResult {
    match Tallest(boxes)
    case None => NoBox
    case Some(k) =>
      if Extent(boxes[k]) < MinFaceHeight then TooSmall
      else
        var region := Cut(height, width, Square(width, boxes[k]));
        if IsEmpty(region) then EmptyCrop else Cropped(region, boxes[k])
  }

  /** crop_face raises at the selected box exactly when no box has positive height. */
  lemma CropNoBox(height: nat, width: nat, boxes: seq<Box>)
    ensures Crop(height, width, boxes).NoBox? <==> forall i :: 0 <= i < |boxes| ==> Extent(boxes[i]) <= 0
  {
    TallestSelects(boxes);
  }

  /** crop_face returns the bare image exactly when the first tallest box is under the
      minimum height. */
  lemma CropTooSmall(height: nat, width: nat, boxes: seq<Box>)
    ensures Crop(height, width, boxes).TooSmall? <==>
      exists k :: IsFirstTallest(boxes, k) && Extent(boxes[k]) < MinFaceHeight
  {
    TallestSelects(boxes);
    if Tallest(boxes).Some? {
      var k := Tallest(boxes).value;
      forall j | IsFirstTallest(boxes, j)
        ensures j == k
      {
        FirstTallestUnique(boxes, j, k);
      }
    }
  }

  /** Resizing raises exactly when the first tallest box is tall enough but the slice of
      its square is empty (`CutEmpty` says when). */
  lemma CropEmpty(height: nat, width: nat, boxes: seq<Box>)
    ensures Crop(height, width, boxes).EmptyCrop? <==>
      exists k :: IsFirstTallest(boxes, k) && Extent(boxes[k]) >= MinFaceHeight &&
                  IsEmpty(Cut(height, width, Square(width, boxes[k])))
  {
    TallestSelects(boxes);
    if Tallest(boxes).Some? {
      var k := Tallest(boxes).value;
      forall j | IsFirstTallest(boxes, j)
        ensures j == k
      {
        FirstTallestUnique(boxes, j, k);
      }
    }
  }

  /** Otherwise crop_face returns the part of the frame its square selects, a non-empty
      region inside the frame, together with the first tallest box as the detector gave it. */
  lemma CropCropped(height: nat, width: nat, boxes: seq<Box>)
    requires Crop(height, width, boxes).Cropped?
    ensures exists k :: IsFirstTallest(boxes, k) && Extent(boxes[k]) >= MinFaceHeight &&
                        Crop(height, width, boxes) ==
                          Cropped(Cut(height, width, Square(width, boxes[k])), boxes[k])
    ensures var g := Crop(height, width, boxes).region;
            0 <= g.top < g.bottom <= height && 0 <= g.left < g.right <= width
  {
    TallestSelects(boxes);
  }

  /** crop_face as the source writes it: a scan that keeps the tallest box seen so far,
      then the straight-line geometry. */
  method CropFace(height: nat, width: nat, boxes: seq<Box>) returns (r: CropResult)
    ensures r == Crop(height, width, boxes)
  {
    var tallest := 0;
    var box: Option<Box> := None;
    for i := 0 to |boxes|
      invariant box.None? <==> Tallest(boxes[..i]).None?
      invariant box.Some? ==> box.value == boxes[Tallest(boxes[..i]).value]
      invariant tallest == if box.None? then 0 else Extent(box.value)
    {
      assert boxes[..i + 1][..i] == boxes[..i];
      if Extent(boxes[i]) > tallest {
        box := Some(boxes[i]);
        tallest := Extent(boxes[i]);
      }
    }
    assert boxes[..|boxes|] == boxes;
    if box.None? {
      return NoBox;
    }
    if Extent(box.value) < MinFaceHeight {
      return TooSmall;
    }
    var region := Cut(height, width, Square(width, box.value));
    if IsEmpty(region) {
      return EmptyCrop;
    }
    r := Cropped(region, box.value);
  }

  /** Boxes of heights 40, 90 and 70: the 90-pixel one is cropped. */
  lemma ExampleTallestChosen()
    ensures var r := Crop(480, 640, [Box(0, 0, 40, 40), Box(100, 10, 190, 100), Box(300, 0, 370, 70)]);
            r.Cropped? && r.box == Box(100, 10, 190, 100)
  {
    var boxes := [Box(0, 0, 40, 40), Box(100, 10, 190, 100), Box(300, 0, 370, 70)];
    assert Extent(boxes[1]) > 0;
    TallestSelects(boxes);
    FirstTallestUnique(boxes, Tallest(boxes).value, 1);
  }

  /** A face 59 pixels tall is not cropped. */
  lemma ExampleTooSmall()
    ensures Crop(480, 640, [Box(10, 10, 69, 69)]) == TooSmall
  {
    var boxes := [Box(10, 10, 69, 69)];
    assert Extent(boxes[0]) > 0;
    TallestSelects(boxes);
    FirstTallestUnique(boxes, Tallest(boxes).value, 0);
  }

  /** A 90-pixel face in a frame 98 columns wide: the square is 98 wide, its centred left
      edge 1 does not fit, so the left bound becomes -1 and the slice is empty. */
  lemma ExampleSquareAsWideAsFrame()
    ensures Square(98, Box(40, 10, 60, 100)) == Rect(2, 100, -1, 97)
    ensures Crop(120, 98, [Box(40, 10, 60, 100)]) == EmptyCrop
  {
    var boxes := [Box(40, 10, 60, 100)];
    assert Extent(boxes[0]) > 0;
    TallestSelects(boxes);
    FirstTallestUnique(boxes, Tallest(boxes).value, 0);
  }
}
