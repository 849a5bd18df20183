# Dithering converter: a verified model of its colour quantisation

The converter is a single-page web application, `src/App.tsx`. The user uploads an image and picks a palette: 64 colours, or black and white. The application reads the canvas pixels back as a row-major RGBA byte buffer. It then applies ordered (4x4 Bayer) dithering in place and offers the result as a PNG download. This project models the part of that file which computes:

- **`palettes.dfy`** (module `Palettes`): the two fixed palettes, `palette64` and `palette2`, and `getPalette`.
- **`nearest.dfy`** (module `NearestColor`): `findNearestColor`, a scan that keeps the first palette entry at the smallest squared RGB distance. It is modelled as a method with its loop. It is proved against `NearestIndex`, a specification function shown to be the argmin with the first-index tie-break.
- **`ordered_dither.dfy`** (module `OrderedDither`):
  - the Bayer matrix, threshold, gain and clamp;
  - `ImageData` as a class over an `array<byte>`;
  - `orderedDitherImage`, modelled as methods with the nested `y`/`x` loop. Its whole-buffer result is stated by the function `OrderedDithered`. A ghost log records the byte offsets written, in order.
- **`dither_properties.dfy`** (module `DitherProperties`): properties of the output. Every pixel is a palette colour. Results are local to a pixel and its place in the Bayer tile. For palettes whose colours are far enough apart, which covers both shipped palettes, dithering is idempotent.
- **`converter.dfy`** (module `Converter`): the conversion step of `handleConvert`, which is `getPalette` followed by `orderedDitherImage` on the canvas buffer.
- **`download_name.dfy`** (module `DownloadName`): the download name. It is the uploaded name with `/\.[^/.]+$/` removed and `.png` appended, or `converted.png` when there is no file or the name is empty.

The matcher takes its query as three real numbers, anywhere on the line, as the JavaScript function does. The dither computes each adjusted channel as the real `min(255, max(0, old + threshold * 50))`. Since `((bayer + 0.5) / 16 - 0.5) * 50` equals `(50 * bayer - 375) / 16`, and the original channels are integers, every adjusted channel is a whole number of sixteenths (`AdjustChannelSixteenths`). The proofs about the dither's output use that to compare distances as integers (`DistanceInSixteenths`).

## Model

| member | source | states |
| Palettes.Palette64 | src/App.tsx:22-39 | the 64-colour table, entry for entry in the program's order |
| Palettes.Palette2 | src/App.tsx:42-45 | the black-and-white table |
|---|---|---|
| Palettes.CubeColor | src/App.tsx:22-39 | entry n of the 4-level colour cube has byte channels |
| Palettes.Palette64IsCube | src/App.tsx:22-39 | the 64-entry table has 64 entries, and entry n is the cube colour whose base-4 digits are those of n, scaled by 85 |
| Palettes.Palette64Complete | src/App.tsx:22-39 | every colour with channel levels in {0, 85, 170, 255} is in the table, at index 16r + 4g + b |
| Palettes.Palette64Distinct | src/App.tsx:22-39 | the 64 entries are pairwise distinct |
| Palettes.Palette64Bounds | src/App.tsx:22-39 | the table holds byte colours, from black at index 0 to white at index 63 |
| Palettes.GetPalette | src/App.tsx:42-50 | the selected palette is non-empty and made of byte colours; it has 64 entries for '64' and 2 for '2'; it starts with black and ends with white |
| NearestColor.DistanceSq | src/App.tsx:57 | the squared Euclidean RGB distance `(r - pr)^2 + (g - pg)^2 + (b - pb)^2`, unweighted |
| NearestColor.Below | src/App.tsx:54-58 | `diff < minDiff` with `minDiff` starting at Infinity: every distance is below Infinity, and otherwise the comparison is strict |
| NearestColor.NearestInPrefix | src/App.tsx:56-62 | the winner among the first n entries is one of them |
| NearestColor.NearestIndex | src/App.tsx:53-64 | the nearest index of a non-empty palette is a valid index |
| NearestColor.NearestInPrefixIsNearest | src/App.tsx:56-62 | after scanning n entries, the kept entry is at no greater distance than any scanned entry and strictly nearer than every earlier one |
| NearestColor.NearestIndexIsNearest | src/App.tsx:53-64 | NearestIndex is the argmin of the distance over the whole palette, and the first among equals |
| NearestColor.NearestUnique | src/App.tsx:58-61 | only one index can be the argmin with the first-index tie-break |
| NearestColor.NearestIndexCharacterized | src/App.tsx:53-64 | an index satisfies the argmin with first-index tie-break if and only if it is NearestIndex |
| NearestColor.FindNearestColor | src/App.tsx:53-64 | the scan, starting at minDiff = Infinity, returns the entry at NearestIndex; that entry is in the palette and minimises the distance to every entry |
| NearestColor.TieGoesToFirstEntry | src/App.tsx:58 | a query exactly halfway between two entries gets the first entry |
| NearestColor.ExactMatchIsNearest | src/App.tsx:53-64 | a query equal to a palette entry is matched to an entry equal to it |
| NearestColor.DistanceZero | src/App.tsx:57 | the distance from a colour with integer channels to an entry is never negative, and is zero exactly when the entry is that colour |
| OrderedDither.Bayer | src/App.tsx:74-79 | the Bayer entry used at (x, y) lies in 0..15 |
| OrderedDither.BayerMatrix | src/App.tsx:74-79 | the 4x4 Bayer matrix, indexed [row][column] |
| OrderedDither.Factor | src/App.tsx:82 | the gain 50 |
| OrderedDither.Threshold | src/App.tsx:92 | the normalised threshold lies strictly between -0.5 and 0.5 |
| OrderedDither.Offset | src/App.tsx:82-97 | the offset threshold * 50 is at most 23.4375 in magnitude |
| OrderedDither.AdjustChannel | src/App.tsx:95-97 | the adjusted channel lies in 0..255; it is old + threshold * factor when that is in range, 0 below and 255 above; for a byte input it is within 23.4375 of the original |
| OrderedDither.OffsetSixteenths | src/App.tsx:82-92 | the offset counted in sixteenths is a whole number in -375..375 |
| OrderedDither.OffsetSixteenthsExact | src/App.tsx:82-92 | threshold * factor is exactly that whole number of sixteenths |
| OrderedDither.AdjustSixteenths | src/App.tsx:95-97 | the adjusted channel counted in sixteenths lies in 0..16 * 255, within 375 of 16 times a byte input |
| OrderedDither.AdjustChannelSixteenths | src/App.tsx:95-97 | every adjusted channel is exactly that whole number of sixteenths |
| OrderedDither.DitherPixel | src/App.tsx:92-100 | the colour chosen for a pixel is a palette entry |
| OrderedDither.DitherPixelDependsOnTile | src/App.tsx:92 | positions whose columns and rows agree modulo 4 choose the same colour for the same input |
| OrderedDither.StoreClamped | src/App.tsx:101-103 | a Uint8ClampedArray store keeps a byte value, and clamps below 0 to 0 and above 255 to 255 |
| OrderedDither.StoredColor | src/App.tsx:101-103 | a stored colour has byte channels, and a byte colour is stored unchanged |
| OrderedDither.PixelColor | src/App.tsx:87-89 | the red, green and blue read at bytes 4p, 4p + 1 and 4p + 2 form a byte colour |
| OrderedDither.SetPixel | src/App.tsx:101-103 | writing a pixel keeps the buffer length |
| OrderedDither.Choices | src/App.tsx:84-100 | there is one chosen colour per pixel |
| OrderedDither.Recolor | src/App.tsx:101-104 | recolouring keeps the buffer length |
| OrderedDither.OrderedDithered | src/App.tsx:68-108 | dithering keeps the buffer length |
| OrderedDither.RecolorAt | src/App.tsx:101-103 | colour byte k of a recoloured pixel is the stored channel k of that pixel's colour |
| OrderedDither.OrderedDitheredChannel | src/App.tsx:86-103 | colour byte k of pixel p of the result is channel k of the colour chosen from pixel p |
| OrderedDither.OrderedDitheredAt | src/App.tsx:86-103 | pixel p of the result holds the stored colour chosen from pixel p's own original colour, column and row |
| OrderedDither.FixedPixelKept | src/App.tsx:86-103 | a pixel whose chosen colour is the colour it already holds keeps its bytes |
| OrderedDither.StoredChannelOfPixel | src/App.tsx:87-103 | storing a channel read from the buffer writes back the same byte |
| OrderedDither.OrderedDitheredAlpha | src/App.tsx:104 | every alpha byte, at offset 3 mod 4, is unchanged |
| OrderedDither.ChoiceAt | src/App.tsx:86-92 | pixel y * width + x gets the colour chosen with the offset of column x and row y |
| OrderedDither.Paint | src/App.tsx:84-105 | painting pixels one after another keeps the buffer length |
| OrderedDither.PaintAhead | src/App.tsx:84-105 | bytes of pixels not yet reached are still the original ones |
| OrderedDither.PaintPixelAhead | src/App.tsx:87-89 | the pixel about to be read still holds its original colour, so no earlier write feeds into it |
| OrderedDither.PaintBytes | src/App.tsx:84-105 | after n pixels, their colour bytes hold their stored colours, and every other byte, alpha included, is original |
| OrderedDither.PaintAll | src/App.tsx:84-105 | painting every pixel in turn equals recolouring the whole buffer |
| OrderedDither.PaintComplete | src/App.tsx:84-107 | painting every pixel with its chosen colour yields OrderedDithered |
| OrderedDither.WriteOrder | src/App.tsx:101-103 | n pixels make 3n writes |
| OrderedDither.WriteOrderNext | src/App.tsx:101-103 | the writes for pixel n come after those for the pixels before it |
| OrderedDither.WriteOrderAt | src/App.tsx:86-103 | write number j goes to channel j % 3 of pixel j / 3 |
| OrderedDither.WriteOrderExact | src/App.tsx:84-105 | the write offsets strictly increase, so each byte is written at most once. They are exactly the red, green and blue bytes of each pixel, never an alpha byte, all within the buffer |
| OrderedDither.ImageData.constructor | src/App.tsx:68-71 | an image holds width, height and a buffer of 4 * width * height bytes |
| OrderedDither.ImageData.Valid | src/App.tsx:68-71 | the buffer holds four bytes, R, G, B and A, per pixel of a width by height image |
| OrderedDither.DitherPixelAt | src/App.tsx:86-103 | the loop body sets pixel p's red, green and blue to the stored colour chosen from its original colour at (x, y), and nothing else |
| OrderedDither.PaintNext | src/App.tsx:86-103 | painting pixel y * width + x is what the loop body does to the buffer painted so far |
| OrderedDither.DitherRow | src/App.tsx:85-105 | the inner loop paints exactly the pixels of row y, left to right, and logs their writes in order |
| OrderedDither.DitherRows | src/App.tsx:84-106 | the outer loop paints every pixel, row after row, and logs all writes in row-major order |
| OrderedDither.OrderedDitherImage | src/App.tsx:68-108 | dithering in place returns the same image object; the buffer becomes OrderedDithered of its old contents; the writes are WriteOrder(width * height); a zero-area image is untouched |
| DitherProperties.OrderedDitheredInPalette | src/App.tsx:100-103 | with a palette of byte colours, every pixel of the result holds a palette colour |
| DitherProperties.DitherIsLocal | src/App.tsx:84-105 | two pixels, in any buffers, with the same original colour and the same column and row modulo 4 get the same result |
| DitherProperties.MidGreyOnTwoColours | src/App.tsx:74-100 | grey 128 on the black-and-white palette becomes black at Bayer entry 0 and white at entry 8 |
| DitherProperties.ChannelInSixteenths | src/App.tsx:57 | for a query channel of k sixteenths, the squared difference to an entry channel e is (k - 16e)^2 / 256 |
| DitherProperties.DistanceInSixteenths | src/App.tsx:57 | for a query given in sixteenths, the matcher's distance is exactly the integer distance in sixteenths divided by 256 |
| DitherProperties.NearDistance | src/App.tsx:95-97 | after the offset, a pixel is at most 3 * 375^2 (in sixteenths, squared) from its original colour |
| DitherProperties.ChannelFar | src/App.tsx:95-97 | one channel far from the original keeps an offset query more than 3 * 375^2 from that colour |
| DitherProperties.FarDistance | src/App.tsx:95-97 | after the offset, a pixel is farther than 3 * 375^2 from every colour far apart from its original |
| DitherProperties.PaletteColorIsFixed | src/App.tsx:92-100 | in a separated palette of byte colours, a pixel already holding a palette colour keeps it at every position |
| DitherProperties.PaletteColorIsFixedAt | src/App.tsx:92-100 | the same fact for pixel p of a buffer |
| DitherProperties.RedoPixel | src/App.tsx:84-105 | the colour bytes of the result survive a second dither with the same separated palette |
| DitherProperties.RedoByte | src/App.tsx:84-105 | every byte of the result survives a second dither with the same separated palette |
| DitherProperties.OrderedDitheredIdempotent | src/App.tsx:68-108 | with a separated palette of byte colours, dithering the result again changes nothing |
| DitherProperties.CubeFarApart | src/App.tsx:22-39 | distinct cube colours differ by a full level in some channel |
| DitherProperties.Palette64Separated | src/App.tsx:22-39 | the 64-colour table is separated |
| DitherProperties.Palette2Separated | src/App.tsx:42-45 | black and white are separated |
| DitherProperties.GetPaletteSeparated | src/App.tsx:48-50 | both selectable palettes are separated |
| Converter.ConvertImage | src/App.tsx:179-180 | converting returns the same image; the buffer becomes OrderedDithered with the selected palette; every pixel then holds a colour of that palette; every alpha byte is unchanged |
| Converter.ReconvertChangesNothing | src/App.tsx:179-180 | converting a converted buffer again with the same palette changes nothing |
| DownloadName.ExtensionDot | src/App.tsx:192 | the scan for the extension's dot finds an index below where it started |
| DownloadName.MatchesAt | src/App.tsx:192 | the regular expression `/\.[^/.]+$/` matches at index i: a '.', then one or more characters that are neither '/' nor '.', up to the end |
| DownloadName.ExtensionDotMatches | src/App.tsx:192 | the scan finds index i if and only if the pattern `\.[^/.]+$` matches at i |
| DownloadName.MatchUnique | src/App.tsx:192 | the pattern matches at most one index |
| DownloadName.StripExtension | src/App.tsx:192 | the result is a prefix of the name: the name itself, or the name cut just before a matching dot |
| DownloadName.StripWithoutExtension | src/App.tsx:192 | a name where the pattern matches nowhere is kept |
| DownloadName.StripWithExtension | src/App.tsx:192 | a stem, a dot and an extension lose exactly the dot and the extension |
| DownloadName.DownloadFileName | src/App.tsx:190-193 | the download name ends in ".png". No file or an empty name gives "converted.png". Otherwise what precedes ".png" is the name, or the name cut before its extension |
| DownloadName.DownloadNameWithExtension | src/App.tsx:190-193 | `stem.ext` downloads as `stem.png` |
| DownloadName.DownloadNameWithoutExtension | src/App.tsx:190-193 | a non-empty name without an extension downloads as the name plus ".png" |
| DownloadName.DownloadNameFallback | src/App.tsx:190-193 | no file, or an empty name, downloads as "converted.png" |
| DownloadName.ExampleLastExtensionOnly | src/App.tsx:192 | "photo.jpeg" gives "photo.png", and "archive.tar.gz" gives "archive.tar.png" |
| DownloadName.ExampleDotFile | src/App.tsx:192 | ".bashrc" gives ".png" |
| DownloadName.ExampleTrailingDot | src/App.tsx:192 | "notes." gives "notes..png" |
| DownloadName.ExampleDotBeforeSlash | src/App.tsx:192 | "v1.0/readme" gives "v1.0/readme.png" |

## Left out

- React state, hooks, event handlers and rendering (src/App.tsx:11-19, 138-163, 199-233) are user interface. `PaletteChoice` models only the two values the selector accepts.
- Browser I/O is not modelled: `FileReader`, image loading, the canvas calls `drawImage`, `getImageData`, `putImageData` and `toDataURL`, and the link click. This covers src/App.tsx:111-135, 167-178, 181-183, 186-189 and 194-197. `ConvertImage` takes the buffer the canvas would return.
- Parsing and sizing the scale factor (`Number(scale) / 100` with `Math.floor`) is float arithmetic on user text that only feeds the canvas resizer. Image dimensions are parameters.
- NearestColor.FindNearestColor requires a non-empty palette. With an empty one the JavaScript returns `undefined`, and the dither then fails on `nearest.r`. The model does not capture that failure.
- IEEE double arithmetic is modelled by exact reals. With the program's inputs every intermediate value of the dither is a dyadic rational with a small numerator: steps of 1/32 for the threshold, 1/16 for the offset and the adjusted channels, 1/256 for the distances. Doubles hold all of these exactly. For arbitrary queries to the matcher, double rounding of the distances is not modelled.
- A `Uint8ClampedArray` rounds non-integer stores. That is not modelled, because only integer palette channels are ever stored.
- Floyd–Steinberg, Atkinson and random dithering are not part of `src/App.tsx`, so they are not part of this model.
