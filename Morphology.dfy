/** The morphology strategy (`LabyrinthMorphology`): the walls are grown by
    repeated openings until the corridor image stops changing, and the
    eroded result is copied onto the displayed image as the way. The
    morphological operations themselves are computed outside the model:
    the class receives their final result as the mask `way`. */
module Morphology {
  import opened Grid
  import Labyrinth

  /** A pixel after the way is copied: white in both the mask and the
      displayed image turns blue, anything else keeps its value. */
  function Marked(mask: Pixel, p: Pixel): (r: Pixel)
    ensures r == Blue <==> (mask == White && p == White) || p == Blue
    ensures r != p ==> mask == White && p == White
  {
    if mask == White && p == White then Blue else p
  }

  /** Copying the way a second time changes nothing. */
  lemma MarkedIdempotent(mask: Pixel, p: Pixel)
    ensures Marked(mask, Marked(mask, p)) == Marked(mask, p)
  {
  }

  class LabyrinthMorphology {
    /** The cleaned image the openings start from. */
    const input: array2<Pixel>
    /** The displayed image the way is copied into. */
    const output: array2<Pixel>
    /** Set by the base constructor and not read by this strategy. */
    var start: Point
    var finish: Point

    /** `Labyrinth()` followed by `LabyrinthMorphology::Start`: load and
        clean the image with the opened mask `mask`, then run `FindWay`
        with `way`, the eroded fixed point of the openings. */
    constructor (image: array2<Pixel>, mask: array2<Pixel>, way: array2<Pixel>)
      requires Labyrinth.SameShape(mask, image) && Labyrinth.SameShape(way, image)
      ensures start == Unset && finish == Unset
      ensures fresh(input) && fresh(output) && input != output
      ensures Labyrinth.SameShape(input, image) && Labyrinth.SameShape(output, image)
      ensures forall i, j :: 0 <= i < image.Length0 && 0 <= j < image.Length1 ==>
                input[i, j] == Labyrinth.Cleaned(mask[i, j], image[i, j], LightGray) &&
                output[i, j] == Marked(way[i, j], Labyrinth.Cleaned(mask[i, j], image[i, j], Gray))
    {
      var inp, outp := Labyrinth.Init(image, mask);
      input, output := inp, outp;
      start, finish := Unset, Unset;
      new;
      var res := FindWay(way);
    }

    /** The copying tail of `FindWay`: every pixel of the displayed image
        inside the bounds of `way` is marked, every other pixel keeps its
        value, and the result is always `0`. */
    method FindWay(way: array2<Pixel>) returns (res: int)
      requires way != output && way.Length0 <= output.Length0 && way.Length1 <= output.Length1
      modifies output
      ensures res == 0
      ensures forall i, j :: 0 <= i < output.Length0 && 0 <= j < output.Length1 ==>
                output[i, j] == if i < way.Length0 && j < way.Length1 then Marked(way[i, j], old(output[i, j]))
                                else old(output[i, j])
    {
      for i := 0 to way.Length0
        invariant forall r, c :: 0 <= r < output.Length0 && 0 <= c < output.Length1 ==>
                    output[r, c] == if r < i && c < way.Length1 then Marked(way[r, c], old(output[r, c]))
                                    else old(output[r, c])
      {
        for j := 0 to way.Length1
          invariant forall r, c :: 0 <= r < output.Length0 && 0 <= c < output.Length1 ==>
                      output[r, c] == if (r < i || (r == i && c < j)) && c < way.Length1
                                      then Marked(way[r, c], old(output[r, c]))
                                      else old(output[r, c])
        {
          if way[i, j] == White && output[i, j] == White {
            output[i, j] := Blue;
          }
        }
      }
      return 0;
    }

    /** `IsEqual`: compare `image1` with `image2` pixel by pixel over
        `image1`'s bounds and stop at the first difference. The answer is
        true exactly when no pixel there differs; in particular an image
        equals itself. */
    static method IsEqual(image1: array2<Pixel>, image2: array2<Pixel>) returns (eq: bool)
      requires image1.Length0 <= image2.Length0 && image1.Length1 <= image2.Length1
      ensures eq <==> forall i, j :: 0 <= i < image1.Length0 && 0 <= j < image1.Length1 ==>
                        image1[i, j] == image2[i, j]
      ensures image1 == image2 ==> eq
    {
      for i := 0 to image1.Length0
        invariant forall r, c :: 0 <= r < i && 0 <= c < image1.Length1 ==> image1[r, c] == image2[r, c]
      {
        for j := 0 to image1.Length1
          invariant forall r, c :: (r < i || (r == i && c < j)) && 0 <= r && 0 <= c < image1.Length1 ==>
                      image1[r, c] == image2[r, c]
        {
          if image1[i, j] != image2[i, j] {
            return false;
          }
        }
      }
      return true;
    }
  }
}
