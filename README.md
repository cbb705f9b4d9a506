# Collage layout and image collection

This project models the logic in `main.py` of a small tool. The tool downloads a zip archive from a cloud-storage share link, collects the images in it, and pastes them into one grid collage. It models two parts:

- **`Collage`** (`collage.dfy`): the layout arithmetic of `create_collage`. No images is an error. Otherwise every image is resized to the configured `image_size`, The imaging library's `resize` copies an image that already has the target size. Otherwise it stretches the image, and it fails when the target has a width or height below 1. So the resize fails exactly when the target has such a side and some image differs from it. A negative size cannot be written, because `Size` has `nat` fields, so such a side is zero. The cell is the largest resized width and the largest resized height. The canvas is `cols * (cellW + margin) + margin` wide and `ceil(n / cols) * (cellH + margin) + margin` high. Image `i` is pasted at row `i div cols`, column `i mod cols`, at the corner of its cell plus a centring offset. The program hard-codes seven columns (`ImagesPerRow`). The lemmas are stated for any `cols >= 1`. The resize comprehension is the method `ResizeEach`, and the `enumerate` loop that pastes the images is the method `PasteAll`. Both are called by the method `CreateCollage`. It records each paste as a `Placement`, in paste order, and is proved equal to the layout function `CollageLayout`.
- **`ImageFiles`** (`image_files.dfy`): `get_images`. It walks a directory tree and keeps each file whose lower-cased name ends with `png`, `jpg` or `jpeg`, joined to its directory. The walk is given as a sequence of `DirEntry(root, dirs, files)` triples. The outer loop is the method `GetImages` and the inner loop is the method `KeepImages`. `GetImages` is proved equal to the function `Collected`. The filter `Filter` is characterised by lemmas.

An image is modelled only as its width and height. Pixels are not modelled.

The model follows the code in these points:

- The code never rejects a bad column count, because the count is the constant 7. The model requires `cols >= 1` instead.
- The code does not check the margin or the cell size itself. A target with a width or height below 1 is rejected by the library's `resize` (main.py:46) for the first image that does not already have that size, and the model returns `EmptyTargetSize` for it. Images that all have the target size are copied, whatever it is. Negative sizes cannot be written, because `Size` has `nat` fields. `margin` is any integer here, and containment and non-overlap are proved for `margin >= 0`.
- The offset uses Python's `//`, which rounds toward negative infinity, not toward zero. With the positive divisor 2 this is Dafny's `/`. The numerator is never negative anyway, because the cell is a maximum.
- The empty-input error is raised before any resizing.
- The suffixes have no leading dot, so `xpng` is collected too.

## Model

| member | source | states |
|---|---|---|
| `Collage.ResizableTo` | main.py:46 | no contract of its own: a target `resize` can stretch to has both sides at least one pixel; `EmptyTargetFails` and `CreateCollage` tie it to the error |
| `Collage.ResizeRaises` | main.py:46 | no contract of its own: `resize` raises when the image differs from the target and the target has a zero side; `ResizeEach`, `EmptyTargetFails` and `SameSizeCopied` characterise it |
| `Collage.Resize` | main.py:46 | no contract of its own: `resize` copies an image of the target size and stretches any other to exactly the target; `ResizeAll` and `ResizeIdempotent` state that the result is always the target |
| `Collage.ResizeEach` | main.py:46 | the comprehension fails with the resize error if and only if some image's `resize` raises, and otherwise returns exactly the resized images |
| `Collage.ResizeAll` | main.py:46 | every resized image has exactly the target size, and the count is unchanged |
| `Collage.ResizeIdempotent` | main.py:46 | resizing twice to the same size is the same as resizing once |
| `Collage.MaxOf` | main.py:48-49 | `max` returns an element of the sequence that no element exceeds |
| `Collage.CellSize` | main.py:48-49 | the cell is at least as wide and as high as every image, and some image attains each of its width and height |
| `Collage.Rows` | main.py:56 | the row count is the ceiling of `n / cols`: `rows * cols >= n > (rows - 1) * cols`, and it is zero only for no images |
| `Collage.Offset` | main.py:67-68 | for an image no larger than the cell, the offset is non-negative and centres it, with at most one spare pixel on the far side; it is zero when image and cell agree |
| `Collage.PlaceAt` | main.py:63-71 | image `i` keeps its index and size, its column is below `cols` and `i == row * cols + col`; an image no larger than the cell lies inside its cell's slot on each axis |
| `Collage.Placements` | main.py:63-71 | no contract of its own: one `PlaceAt` per image in paste order; `PlacementFormula`, `Containment` and `NoOverlap` characterise it |
| `Collage.CanvasFor` | main.py:53-57 | no contract of its own: `CanvasDimensions` states the canvas formulas and `Containment` that every image fits inside |
| `Collage.ComputeLayout` | main.py:43-71 | the layout fails exactly when there are no images, and otherwise has one placement per image |
| `Collage.CollageLayout` | main.py:41-71 | the result is the no-images error exactly for no images and the resize error exactly when the target has a side below 1 and some image differs from it; a layout has cell `image_size` and one placement per image. `CreateCollage`, `EmptyInputFails` and `EmptyTargetFails` relate it to the loop and the errors |
| `Collage.PasteAll` | main.py:63-71 | the `enumerate` loop records exactly `Placements`: one placement per image, in paste order |
| `Collage.CreateCollage` | main.py:41-73 | the method's result equals the layout function; it is the no-images error exactly for no images and the resize error exactly when the target has a side below 1 and some image differs from it; otherwise the cell is `image_size` and every image sits at the corner of its cell |
| `Collage.EmptyInputFails` | main.py:43-44 | no images gives the "No images found." error |
| `Collage.EmptyTargetFails` | main.py:46 | with images, the result is the resize error exactly when the target has a width or height below 1 and some image differs from it, and a layout exactly when both sides are positive or every image already has the target size |
| `Collage.SameSizeCopied` | main.py:46-57 | one 0 by 800 image with target 0 by 800 is copied, not rejected, and gives an 800 by 1000 canvas |
| `Collage.CanvasDimensions` | main.py:48-57 | the cell is the maximum width and height; rows is the ceiling of `n / cols`; the canvas is `cols*(cellW+margin)+margin` by `rows*(cellH+margin)+margin`, so a partly filled last row gets full height |
| `Collage.PlacementFormula` | main.py:63-71 | image `i` is at row `i div cols` and column `i mod cols`, inside the grid; its coordinate is `margin + col*(cellW+margin) + offX`, `margin + row*(cellH+margin) + offY` |
| `Collage.OffsetsCentre` | main.py:67-71 | both offsets are non-negative and centre the image in its cell to within one pixel |
| `Collage.UniformCell` | main.py:48-49 | when every image has the same size, the cell is that size |
| `Collage.UniformOffsetsZero` | main.py:67-71 | when every image has the same size, both offsets are zero and each image starts exactly at its cell's corner |
| `Collage.ResizedOffsetsZero` | main.py:46-71 | after a successful resize, the cell is `image_size` and every offset is zero |
| `Collage.Containment` | main.py:53-71 | for a non-negative margin, every pasted image lies inside the canvas and at least a margin from each edge |
| `Collage.NoOverlap` | main.py:63-71 | for a non-negative margin, a pixel covered by images `i` and `j` forces `i == j` |
| `Collage.SevenImages` | main.py:41-71 | seven images with the defaults give one row, a 6400 by 1000 canvas, and image `i` at (100 + 900 i, 100) |
| `Collage.FirstRowPlacement` | main.py:63-71 | with the defaults, image `i` of the first row starts at (100 + 900 i, 100) |
| `Collage.EightImages` | main.py:41-71 | eight images with the defaults give two rows and a 6400 by 1900 canvas; image 7 is at row 1, column 0, at (100, 1000) |
| `ImageFiles.LowerChar` | main.py:36 | lower-casing maps `A`-`Z` to `a`-`z`, leaves every other character alone, and never yields an upper-case letter |
| `ImageFiles.Lower` | main.py:36 | no contract of its own: `str.lower` character by character; `LowerIdempotent` states that it is idempotent and does not change the test |
| `ImageFiles.EndsWithAny` | main.py:36 | no contract of its own: the tuple form of `str.endswith`; `EndsWithAnyMeans` and `PrefixIrrelevant` characterise it |
| `ImageFiles.IsImageName` | main.py:36 | no contract of its own: the lower-cased name ends with one of the suffixes; `EndsWithAnyMeans`, `LowerIdempotent`, `PrefixIrrelevant` and the example lemmas characterise it |
| `ImageFiles.EndsWithAnyMeans` | main.py:36 | the tuple form of `endswith` holds if and only if the name ends with some one of the suffixes |
| `ImageFiles.Filter` | main.py:35-37 | every kept name passes the suffix test, and the result is no longer than the input |
| `ImageFiles.Join` | main.py:37 | a joined path ends with the file name, and an absolute file name replaces the directory |
| `ImageFiles.Collected` | main.py:31-38 | no contract of its own: the paths `get_images` returns; `GetImages` computes it and `CollectedMembership` says which paths it holds |
| `ImageFiles.GetImages` | main.py:31-38 | the outer loop returns exactly `Collected(walk)`: directory by directory in walk order, each directory's kept files in order, joined to that directory |
| `ImageFiles.KeepImages` | main.py:35-37 | the inner loop appends exactly the passing files of one directory, in order, each joined to the directory |
| `ImageFiles.FilterAppend` | main.py:35-37 | filtering distributes over concatenation, so relative order is preserved |
| `ImageFiles.FilterOne` | main.py:36-37 | a single name is kept exactly when it passes the test |
| `ImageFiles.FilterCount` | main.py:35-37 | a passing name occurs in the result exactly as often as in the input; a failing name never occurs |
| `ImageFiles.FilterMembership` | main.py:35-37 | a name is in the result if and only if it is in the input and passes the test |
| `ImageFiles.FilterIdempotent` | main.py:35-37 | filtering a filtered list changes nothing |
| `ImageFiles.LowerIdempotent` | main.py:36 | lower-casing is idempotent, and a name passes exactly when its lower-cased form does |
| `ImageFiles.PrefixIrrelevant` | main.py:36 | putting any prefix before a passing name leaves it passing: only the suffix matters |
| `ImageFiles.UpperCaseKept` | main.py:36 | `a.PNG` passes |
| `ImageFiles.JpegKept` | main.py:36 | `photo.JPEG` passes |
| `ImageFiles.NoDotKept` | main.py:36 | `xpng` passes, because the suffixes have no dot |
| `ImageFiles.OthersDropped` | main.py:36 | `a.gif` and `png.txt` do not pass |
| `ImageFiles.CollectedMembership` | main.py:33-38 | a path is collected if and only if it is some directory's passing file joined to that directory |

## Left out

- `get_direct_link` and `download_and_extract` (main.py:14-28): HTTP requests, JSON decoding and zip extraction are done by external libraries.
- `os.walk` (main.py:34): file-system I/O with an unspecified order. Its output is the `walk` parameter of `GetImages`.
- Pixel work in the imaging library (main.py:46, 60, 73-76): the pixels of `resize`, the white background of `Image.new`, `paste`, and the compressed `save`. `resize` is modelled as giving exactly the requested size. `paste` is recorded as a `Placement`, and the list of placements keeps the paste order.
- Decoding the collected files into images (main.py:88): library I/O. `CollageLayout` takes the image sizes directly.
- `run_main` (main.py:79-93) and the environment configuration (main.py:9-11): interactive input, printing, catch-all exception handling and environment variables.
- `Collage.Rows`: computes the exact ceiling. The source computes `math.ceil` of a floating-point quotient, which could round wrongly only for image counts of 2^53 and above.
- `ImageFiles.LowerChar`: lower-cases only the ASCII letters, not the full Unicode case mapping of `str.lower`. No other character lower-cases to a letter of the suffixes. The mapping of the rest of the name does not affect the test. File names that `os.walk` cannot decode carry lone surrogates (U+DC80 to U+DCFF), which Dafny's `char` cannot represent. They are not letters of the suffixes, so the suffix test would give the same answer for them.
- `ImageFiles.Join`: models the POSIX `os.path.join` only, not the Windows one.
- The imaging library's checks on canvas size: a negative margin can produce a negative canvas size, and what `Image.new` does with it is not modelled. The only library error modelled is `resize`'s rejection of an image that must be stretched to a target with a side below 1.
