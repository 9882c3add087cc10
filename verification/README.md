# Wang image feature extractor, modelled in Dafny

This project models `ImageFeatureExtractor` from `lab06/WangImageUtilities.py`.
That class works on the Wang image dataset: a directory of 1000 pictures named `0.jpg` … `999.jpg`. It does three jobs:

- **Loading** (`Loader`). The constructor builds the fixed table of 1000 file names. `load_images` picks a subset, either from an explicit index list or from a validated `[start, end)` range. It loads the subset in dataset order and keeps three parallel lists: indices, decoded images and names.
- **Features** (`Features`, on top of `Histograms`). Three extractors give one histogram row per loaded image:
  - grey level over `[0, 1]`;
  - per-channel colour over `[0, 255]`, concatenated in channel order;
  - hue over `[0, 1]`.

  `Histograms` is `np.histogram` with a fixed range, in exact rational arithmetic:
  - `bins` equal-width bins;
  - each bin half-open, except that the last bin is closed;
  - values outside the range are not counted.
- **Rendering** (`Html`, with `Paths`, `Decimal`, `ClickLists` and `Table`). `to_html` normalises the file name to end in `.html`, then writes a fixed page head, a table with one row per Kohonen-map row and one cell per map cell, and a fixed tail.
  - A cell with samples shows a thumbnail of its first sample. Its click handler lists the paths of the other samples.
  - A cell without samples writes the variable `img` again, i.e. the thumbnail of the latest non-empty cell before it in row-major order.
  - If no cell has been non-empty yet, the same empty cell raises `UnboundLocalError`.

  `Rendering` restates what the grid shows without reference to the loop, and proves that the loop writes exactly that.

Python exceptions are explicit results:
- `LoadError` for the three `assert`s of `load_images`;
- `ExtractError` for the "no images loaded" assertion and numpy's rejection of a bin count below 1;
- `RenderError` for `KeyError`, `IndexError` and `UnboundLocalError` while writing the grid.

The source's default arguments are named constants: the constructor's directory `'Wang_Data'` is `Loader.DefaultDirectory`, and the extractors' `bins=10` is `Features.DefaultBins`. The model's functions take both as explicit arguments.

Python's negative list indexing is modelled (`Html.PyIndex`). So are `str(n)` (`Decimal`) and two-argument `posixpath.join` (`Paths.Join`).

Where the behaviour of the code differs from a tidier reading of its purpose, the model follows the code:
- an empty cell repeats the previous thumbnail, or raises when there is none;
- paths are spliced into the HTML and the click list without escaping (`ClickLists.QuoteInPathIsAmbiguous` shows the resulting ambiguity);
- invalid ranges fail through `assert` rather than a dedicated error type;
- a failing render leaves the head and the chunks written so far in the file, without the tail.

Inputs from outside the class are parameters:
- `decode` stands for `skimage.io.imread` of a path;
- `toGrey` stands for `rgb2grey`;
- `toHue` stands for the hue plane of `rgb2hsv`.

## Model

| member | source | states |
|---|---|---|
| `Loader.NewExtractor` | lab06/WangImageUtilities.py:11-16 | The directory is kept. The name table has exactly 1000 entries; entry `i` is `str(i) + '.jpg'` and reads back as image index `i`, so the table position and the name agree. |
| `Decimal.NatToString` | lab06/WangImageUtilities.py:16 | `str(n)` is a non-empty string of decimal digits without a leading zero; it starts with `0` only for `n = 0`. |
| `Decimal.CanonicalRoundTrip` | lab06/WangImageUtilities.py:16 | Every digit string without a leading zero is `str` of its value, so the numerals `str` produces are exactly the canonical ones. |
| `Paths.IndexOfNameInverse` | lab06/WangImageUtilities.py:16 | A file name that reads back as index `i` is exactly `str(i) + '.jpg'`; zero-padded names such as `007.jpg` are not image names. |
| `Paths.Join` | lab06/WangImageUtilities.py:149-150 | An absolute name replaces the directory. A relative name follows the directory and one `/` separator, where the `/` is added only if the directory is non-empty and does not already end in one. The path is never shorter than the name. |
| `Paths.JoinEndsWithName` | lab06/WangImageUtilities.py:149-150 | Whatever the directory, the joined path ends with the name. |
| `Paths.JoinInjective` | lab06/WangImageUtilities.py:149-150 | Under one directory, two relative names that join to the same path are the same name. |
| `Loader.DefaultImagePath` | lab06/WangImageUtilities.py:11 | An extractor built with the default directory keeps `Wang_Data`, and image 7's path under it is `Wang_Data/7.jpg`. |
| `Paths.ImageNameRoundTrip` | lab06/WangImageUtilities.py:16 | The file name `str(i) + '.jpg'` of image `i` reads back as `i`. |
| `Decimal.NatToStringRoundTrip` | lab06/WangImageUtilities.py:16 | `str(n)` of a natural number consists of decimal digits whose value is `n`. |
| `Paths.ImagePathInjective` | lab06/WangImageUtilities.py:147-150 | Under one directory, distinct image indices give distinct joined paths. |
| `Loader.Range` | lab06/WangImageUtilities.py:28 | `np.arange(start, end)` holds exactly the integers `x` with `start <= x < end`. They are strictly increasing, so each occurs once. |
| `Loader.Expand` | lab06/WangImageUtilities.py:20-28 | An explicit list is used verbatim. Otherwise `start` defaults to 0 and `end` to the table length. The range is accepted iff `0 <= start < end <= count`; then it holds exactly the integers in `[start, end)`. Otherwise the first failing assertion, in source order, is reported. |
| `Loader.Selected` | lab06/WangImageUtilities.py:33-39 | The indices the loop keeps are strictly increasing. They are exactly the table positions that occur in the list. |
| `Loader.SelectAndDecode` | lab06/WangImageUtilities.py:33-39 | The loop keeps the selected indices, in table order. At every position the three output lists hold an index, the image decoded from that index's joined path, and that index's table name. |
| `Loader.SelectStep` | lab06/WangImageUtilities.py:34-39 | Position `i` is kept exactly when its index occurs in the list, and keeping it appends the index, its image and its name so that the three lists stay parallel. |
| `Loader.LoadImages` | lab06/WangImageUtilities.py:18-40 | Loading succeeds iff a list is given or the range assertions hold. On success the directory is kept and the three lists are consistent with the table. The loaded indices are the in-table members of the list, or exactly `[start, end)`. |
| `Loader.LoadedNamesMatchIndices` | lab06/WangImageUtilities.py:33-39 | After loading from the constructor's table, each loaded name is `str(index) + '.jpg'` of the index loaded beside it, and reads back as that index. |
| `Loader.SelectionIgnoresOrder` | lab06/WangImageUtilities.py:33-34 | Two lists with the same in-range members load the same indices, whatever their order and repetitions. |
| `Loader.RangeSelection` | lab06/WangImageUtilities.py:28-39 | Loading the valid range `[start, end)` loads exactly `start, ..., end - 1`, in order. |
| `Loader.IncreasingUnique` | lab06/WangImageUtilities.py:33-39 | Two strictly increasing index sequences with the same members are equal. So the loaded order is fixed by membership alone. |
| `Loader.ExplicitListIsSorted` | lab06/WangImageUtilities.py:33-39 | The list `[3, 1]` loads images 1 then 3: dataset order, not list order. |
| `Histograms.EdgesWithinRange` | lab06/WangImageUtilities.py:79 | The bin edges start at 0, end at the range's top, and increase strictly. |
| `Histograms.InBinIsBetweenEdges` | lab06/WangImageUtilities.py:49 | A value is in bin `b` iff it lies in the range, is at least the bin's lower edge, and is below its upper edge or is the closed end of the last bin. |
| `Histograms.BinOf` | lab06/WangImageUtilities.py:64-65 | Every in-range value is assigned a bin that contains it. |
| `Histograms.BinOfExactly` | lab06/WangImageUtilities.py:64-65 | The assigned bin is the only bin containing the value. |
| `Histograms.Histogram` | lab06/WangImageUtilities.py:49 | The histogram has `bins` counts. Count `b` is the number of values in bin `b`, and the counts add up to the number of in-range values. |
| `Features.ExtractHistogram` | lab06/WangImageUtilities.py:42-53 | Without loaded images it fails with the assertion. With images loaded and a bin count below 1 it fails with numpy's bin-count error (`BinsNotPositive`), not with the assertion. Otherwise there is one row per image, in load order, and row `k` is the `[0, 1]` histogram of image `k`'s grey values. |
| `Features.ExtractHueHistogram` | lab06/WangImageUtilities.py:72-83 | The same as the grey extractor, with the same two errors in the same order, over image `k`'s hue values. |
| `Features.DefaultBinsRows` | lab06/WangImageUtilities.py:42 | With images loaded, every extractor succeeds at the default `bins=10`. Grey and hue rows have 10 counts; colour rows have 30 (10 per channel). |
| `Features.GreyCountsEveryPixel` | lab06/WangImageUtilities.py:47-50 | When `rgb2grey` gives one value in `[0, 1]` per pixel, every grey row's counts add up to the image's pixel count. |
| `Features.HueCountsEveryPixel` | lab06/WangImageUtilities.py:77-80 | When the hue plane gives one value in `[0, 1]` per pixel, every hue row's counts add up to the image's pixel count. |
| `Features.ColorRow` | lab06/WangImageUtilities.py:60-67 | A colour row has `channels * bins` counts. Cut into `bins`-wide segments it gives one segment per channel, in channel order. Segment `c` counts channel `c`'s values per bin over `[0, 255]` and adds up to the channel's length. |
| `Features.ExtractColorHistogram` | lab06/WangImageUtilities.py:55-70 | Fails as the other extractors do. Otherwise it gives one row per image; each channel segment of a row is that channel's histogram and adds up to the image's pixel count. |
| `Features.ByteBin` | lab06/WangImageUtilities.py:64-65 | An 8-bit value `v` falls into bin `min(v * bins / 255, bins - 1)` (integer division). |
| `Html.NormalizeFileName` | lab06/WangImageUtilities.py:87-89 | The opened name always ends in `.html`. A name already ending in it is unchanged; any other name gets `.html` appended. |
| `Html.NormalizeIdempotent` | lab06/WangImageUtilities.py:87-89 | Normalising an already normalised name changes nothing. |
| `Html.CellKeyInjective` | lab06/WangImageUtilities.py:141-142 | Distinct grid cells have distinct `"i,j"` keys. |
| `Html.PyIndex` | lab06/WangImageUtilities.py:147 | `image_indices[sample_id]` succeeds iff `-len <= id < len`. The position it finds is below `len`, and the id is either that position or that position minus `len`. |
| `Html.PyIndexInverse` | lab06/WangImageUtilities.py:147 | Position `p` of a list of length `n` is designated by exactly two ids, `p` and `p - n`. |
| `Html.ResolvePaths` | lab06/WangImageUtilities.py:146-150 | All of a cell's ids resolve iff each can be indexed. Then path `k` is the joined path of image `image_indices[ids[k]]`. Otherwise the error is `IndexError` of the first id that cannot be indexed. |
| `Html.CellThumbnail` | lab06/WangImageUtilities.py:143-161 | A non-empty cell's thumbnail shows the path of its first id. Its click list holds the paths of the remaining ids, in order. It fails exactly as path resolution does. |
| `Html.RepresentativeNotInClickList` | lab06/WangImageUtilities.py:146-156 | When the ids designate distinct loaded images, the shown image is not in its own click list. |
| `Html.ThumbMarkup` | lab06/WangImageUtilities.py:159-160 | The markup opens with `<img src="`, the shown path and a closing double quote, and ends with `])">`. |
| `Html.ThumbLayout` | lab06/WangImageUtilities.py:152-160 | After the shown path comes the fixed middle, which repeats the path as `alt` before the style and the handler opening. The click list follows it and runs up to the closing `])">`. |
| `Html.ThumbMarkupInjective` | lab06/WangImageUtilities.py:151-160 | When the shown path has no double quote and the click paths have no single quote, equal markup means equal thumbnails: the markup determines the shown path and the click list, in order. |
| `ClickLists.ClickList` | lab06/WangImageUtilities.py:155-157 | The handler argument is empty iff there are no other paths. Otherwise it starts with the first path in single quotes and ends with a single quote. |
| `ClickLists.ClickListRoundTrip` | lab06/WangImageUtilities.py:155-158 | For paths without a single quote, the `show_images([...])` argument reads back as exactly the list of paths. |
| `ClickLists.QuoteInPathIsAmbiguous` | lab06/WangImageUtilities.py:155-156 | Without escaping, the single path `a','b` and the two paths `a`, `b` produce the same argument. |
| `Table.TableRoundTrip` | lab06/WangImageUtilities.py:137-167 | The chunks `<tr>`, `<td>`, cell, `</td>`, …, `</tr>` read back as exactly the rows and cells written. |
| `Table.RowShape` | lab06/WangImageUtilities.py:139-166 | A row of `n` cells takes `3n` chunks. Cell `k` sits between a `<td>` at `3k` and a `</td>` at `3k + 2`. |
| `Html.CellOutput` | lab06/WangImageUtilities.py:141-165 | A cell missing from `samples_dict` raises `KeyError` of its key. A non-empty cell succeeds iff all its ids can be indexed, and its markup opens with the path of its first id. An empty cell raises `UnboundLocalError` iff `img` was never assigned, and otherwise writes `img` again. |
| `Html.WriteCells` | lab06/WangImageUtilities.py:139-166 | A row finished without error from column `j` on writes 3 chunks per remaining cell. A failure happens at an existing column and leaves the `<td>` of the failing cell as the last chunk. |
| `Html.WriteRows` | lab06/WangImageUtilities.py:137-167 | A failure happens at an existing row and leaves the `<td>` of the failing cell as the last chunk written. |
| `Html.Page` | lab06/WangImageUtilities.py:90-175 | The file starts with the head and continues with the body. If no exception occurred, the tail follows as the last chunk. If one occurred, the file ends right after the body and has no tail. |
| `Html.ToHtml` | lab06/WangImageUtilities.py:85-175 | The file name ends in `.html` and is unchanged if it already did. `UnboundLocalError` is raised iff the first cell has an entry and that entry is empty. |
| `Html.UnboundOnlyAtOrigin` | lab06/WangImageUtilities.py:162-165 | Writing the grid raises `UnboundLocalError` iff the very first cell is empty. Every later empty cell finds `img` assigned. |
| `Html.CellsKeepImg` | lab06/WangImageUtilities.py:139-165 | Once `img` is assigned it stays assigned through a row, and no later cell of the row raises `UnboundLocalError`. |
| `Rendering.ShownIsLatestThumb` | lab06/WangImageUtilities.py:137-165 | What a cell shows is absent iff every cell up to it is empty. Otherwise it is the own thumbnail of the latest non-empty cell at or before it in row-major order. |
| `Rendering.ShownTable` | lab06/WangImageUtilities.py:137-165 | Every cell of a map whose cells resolve and whose first cell is non-empty shows a thumbnail. The table has the map's shape. |
| `Rendering.CellsWriteShownRow` | lab06/WangImageUtilities.py:139-166 | With `img` holding what the previous cell showed, the rest of a row is written without error. Each cell writes what it shows, and `img` ends as the row's last shown thumbnail. |
| `Rendering.RowsWriteShownTable` | lab06/WangImageUtilities.py:137-167 | From any row on, the grid loop writes, without error, the rows of the shown table. |
| `Rendering.ToHtmlWritesShownTable` | lab06/WangImageUtilities.py:136-175 | If every cell has an entry, every id can be indexed and the first cell is non-empty, then the page is written completely. Its body reads back as the `rows x cols` table in which every cell holds what it shows. |

## Left out

- Image decoding (`skimage.io.imread`) is the parameter `decode`, a total function from paths to images. Missing or unreadable files, and the partial lists they would leave behind, are not modelled.
- `rgb2grey` and the hue plane of `rgb2hsv` are the parameters `toGrey` and `toHue`. The model assumes nothing about their values; values outside `[0, 1]` are simply not counted, as `np.histogram` does.
- Histogram arithmetic is exact rational arithmetic, not floating point. A value within rounding error of a bin edge may fall into the neighbouring bin in the original. The final `astype('float')` is omitted because counts are naturals.
- Images are rasters of three 8-bit channel planes of equal length, as the Wang JPEGs decode. Greyscale images without a channel axis are not modelled; `image.shape[2]` would raise on them.
- Features.ExtractColorHistogram: because every image has exactly three channels, images with differing channel counts (whose rows `np.array` cannot stack, raising `ValueError`) and images with no channel at all are not modelled.
- The extractors rebind `bins` to the edge array returned by `np.histogram`, and later calls use those explicit edges. These are the same equal-width edges, so the model keeps the bin count throughout.
- The "not loaded yet" `AttributeError` is not modelled. An extractor is called on the result of `load_images`.
- Index lists are lists of integers. Entries of other types, which `in` would compare by equality, are not modelled.
- Python's `-O` flag, which disables the `assert`s of `load_images`, is not modelled.
- `print` messages are not modelled.
- File I/O is modelled as the sequence of chunks passed to `write`.
- The page head and tail (`Html.Preamble`, `Html.Closing`) keep every line of the source's markup, in order and with its content unchanged. The indentation in front of each line and the blank lines are dropped, so the whitespace of the static text is not byte-exact. `Html.Page` takes the head and tail as arguments; `Html.FileContents` applies it to these two constants.
- `Html.ToHtml`: at page level, the `KeyError` and `IndexError` cases are stated only through the cell functions (`Html.CellOutput`, `Html.CellThumbnail`), together with the full-success statement of `Rendering.ToHtmlWritesShownTable`. There is no page-level characterisation of which missing key or bad id stops the writing.
- The Kohonen map itself is reduced to its grid shape and `samples_dict`. Its training is outside this model.
