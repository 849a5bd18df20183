/**
 * The conversion step of the application: take the pixel buffer read back
 * from the canvas, look up the selected palette and dither the buffer with
 * it in place. Reading and writing the canvas is not part of this model.
 */
module Converter {
  import opened Palettes
  import opened OrderedDither
  import opened DitherProperties

  /**
   * Convert `image` with the palette `choice` names: the buffer becomes the
   * ordered dither of its old contents, every pixel then holds a colour of
   * that palette, and every alpha byte is what it was.
   */
  method ConvertImage(image: ImageData, choice: PaletteChoice) returns (converted: ImageData)
    requires image.Valid()
    modifies image.data
    ensures converted == image && image.Valid()
    ensures image.data[..] == OrderedDithered(old(image.data[..]), image.width, image.height, GetPalette(choice))
    ensures forall p :: 0 <= p < image.width * image.height ==>
              4 * p + 2 < image.data.Length && PixelColor(image.data[..], p) in GetPalette(choice)
    ensures forall i :: 0 <= i < image.data.Length && i % 4 == 3 ==> image.data[i] == old(image.data[i])
  {
    ghost var before := image.data[..];
    var palette := GetPalette(choice);
    ghost var writes;
    converted, writes := OrderedDitherImage(image, palette);
    forall p | 0 <= p < image.width * image.height
      ensures 4 * p + 2 < image.data.Length && PixelColor(image.data[..], p) in palette
    {
      OrderedDitheredInPalette(before, image.width, image.height, palette, p);
    }
    forall i | 0 <= i < image.data.Length && i % 4 == 3 ensures image.data[i] == before[i] {
      OrderedDitheredAlpha(before, image.width, image.height, palette, i);
    }
  }

  /** Converting an already converted buffer again, with the same palette, changes nothing. */
  lemma ReconvertChangesNothing(s: seq<byte>, width: nat, height: nat, choice: PaletteChoice)
    requires |s| == 4 * (width * height)
    ensures var palette := GetPalette(choice);
      var t := OrderedDithered(s, width, height, palette);
      OrderedDithered(t, width, height, palette) == t
  {
    GetPaletteSeparated(choice);
    OrderedDitheredIdempotent(s, width, height, GetPalette(choice));
  }
}
