/** What both strategies share (the `Labyrinth` base class): loading the
    image into the search and display buffers and neutralising the maze's
    border decoration. */
module Labyrinth {
  import opened Grid

  predicate SameShape(a: array2<Pixel>, b: array2<Pixel>)
  {
    a.Length0 == b.Length0 && a.Length1 == b.Length1
  }

  /** The rows of an image as a value. */
  ghost function Plane(a: array2<Pixel>): (r: seq<seq<Pixel>>)
    reads a
    ensures |r| == a.Length0
    ensures forall i :: 0 <= i < a.Length0 ==> |r[i]| == a.Length1
    ensures forall i, j :: 0 <= i < a.Length0 && 0 <= j < a.Length1 ==> r[i][j] == a[i, j]
  {
    seq(a.Length0, i requires 0 <= i < a.Length0 reads a =>
      seq(a.Length1, j requires 0 <= j < a.Length1 reads a => a[i, j]))
  }

  /** A pixel after border cleaning: where the opened mask is not black it
      becomes `gray`, elsewhere it keeps its value. */
  function Cleaned(mask: Pixel, p: Pixel, gray: Pixel): (r: Pixel)
    ensures mask != Black ==> r == gray
    ensures mask == Black ==> r == p
  {
    if mask != Black then gray else p
  }

  /** Cleaning a pixel a second time changes nothing. */
  lemma CleanedIdempotent(mask: Pixel, p: Pixel, gray: Pixel)
    ensures Cleaned(mask, Cleaned(mask, p, gray), gray) == Cleaned(mask, p, gray)
  {
  }

  /** `set_image`: the search image and the display image become two
      separate copies of the loaded image. */
  method SetImage(image: array2<Pixel>) returns (input: array2<Pixel>, output: array2<Pixel>)
    ensures fresh(input) && fresh(output) && input != output
    ensures SameShape(input, image) && SameShape(output, image)
    ensures forall i, j :: 0 <= i < image.Length0 && 0 <= j < image.Length1 ==>
              input[i, j] == image[i, j] && output[i, j] == image[i, j]
  {
    input := new Pixel[image.Length0, image.Length1]((i, j) reads image =>
      if 0 <= i < image.Length0 && 0 <= j < image.Length1 then image[i, j] else Black);
    output := new Pixel[image.Length0, image.Length1]((i, j) reads image =>
      if 0 <= i < image.Length0 && 0 <= j < image.Length1 then image[i, j] else Black);
  }

  /** The border loop of `Init`: wherever the opened mask is not black the
      search image turns light gray and the display image gray; every other
      pixel of both keeps its value. */
  method CleanBorders(input: array2<Pixel>, output: array2<Pixel>, mask: array2<Pixel>)
    requires input != output && mask != input && mask != output
    requires SameShape(input, output) && SameShape(mask, output)
    modifies input, output
    ensures forall i, j :: 0 <= i < output.Length0 && 0 <= j < output.Length1 ==>
              input[i, j] == Cleaned(mask[i, j], old(input[i, j]), LightGray) &&
              output[i, j] == Cleaned(mask[i, j], old(output[i, j]), Gray)
  {
    for i := 0 to output.Length0
      invariant forall r, c :: 0 <= r < output.Length0 && 0 <= c < output.Length1 ==>
                  input[r, c] == (if r < i then Cleaned(mask[r, c], old(input[r, c]), LightGray) else old(input[r, c])) &&
                  output[r, c] == (if r < i then Cleaned(mask[r, c], old(output[r, c]), Gray) else old(output[r, c]))
    {
      for j := 0 to output.Length1
        invariant forall r, c :: 0 <= r < output.Length0 && 0 <= c < output.Length1 ==>
                    input[r, c] == (if r < i || (r == i && c < j) then Cleaned(mask[r, c], old(input[r, c]), LightGray) else old(input[r, c])) &&
                    output[r, c] == (if r < i || (r == i && c < j) then Cleaned(mask[r, c], old(output[r, c]), Gray) else old(output[r, c]))
      {
        if mask[i, j] != Black {
          input[i, j] := LightGray;
          output[i, j] := Gray;
        }
      }
    }
  }

  /** `Labyrinth::Init`: load the image, then clean its borders with the
      opened mask (the morphological opening itself is computed outside the
      model and passed in as `mask`). */
  method Init(image: array2<Pixel>, mask: array2<Pixel>) returns (input: array2<Pixel>, output: array2<Pixel>)
    requires SameShape(mask, image)
    ensures fresh(input) && fresh(output) && input != output
    ensures SameShape(input, image) && SameShape(output, image)
    ensures forall i, j :: 0 <= i < image.Length0 && 0 <= j < image.Length1 ==>
              input[i, j] == Cleaned(mask[i, j], image[i, j], LightGray) &&
              output[i, j] == Cleaned(mask[i, j], image[i, j], Gray)
  {
    input, output := SetImage(image);
    CleanBorders(input, output, mask);
  }
}
