# Camera tutorial core and its tooling scripts, in Dafny

This project models the parts of the OpenXR Quest tutorial repository that hold real logic, and proves what they promise.

- **The Camera2 capture engine** of the camera tutorial (`Camera2Capture` in the app's `main.cpp`) covers:
  - camera choice by lens facing;
  - stream-size choice by L1 distance;
  - the start/stop life cycle over the NDK handles;
  - the image callback, which validates a YUV_420_888 image and resamples it into a packed RGBA buffer;
  - the single-slot, newest-wins hand-off of that buffer to the render loop.
- **The render-side cache** (`Camera2Tutorial::RenderLayer`). It claims the newest frame, swaps red and blue once for a blue-first swapchain, and uploads the cached frame, or clears the image when nothing has been cached yet.
- **The Markdown outline scanner** (`scan_file` in `sst_scanner.py`). It builds a section tree from `#` headers with a level stack, and attaches classified `[text](target)` links to the innermost open section.
- **The SPIR-V to C converter** (`convert_spv_to_hex.py`). It turns bytes into little-endian words written as `0x%08x,` tokens, eight per line.
- **The text transforms of the chapter refresher** (`update_chapters.py`):
  - the GraphicsAPI include filter;
  - the shader check and the CMake template choice;
  - the guarded Gradle snippet migration;
  - the pairing of chapter directories with their zips.

## Files

| file | module | what it holds |
|---|---|---|
| `native.dfy` | `Native` | `int32`/`uint32`, the wrap-around conversions the C++ performs, arithmetic helpers |
| `pixels.dfy` | `Pixels` | `ClampToByte`, `IsBgraFormat`, the in-place red/blue swap on an `array<byte>` |
| `selection.dfy` | `Selection` | camera and stream-size selection: the loops and their reference definitions |
| `frame.dfy` | `Frame` | the image record and a pixel-by-pixel specification of the converted buffer |
| `capture.dfy` | `Capture` | class `Camera2Capture`: Start, Stop, the image callback, GetLatestFrame |
| `compositor.dfy` | `Compositor` | class `Camera2Tutorial`: the cached frame of `RenderLayer` |
| `text.dfy` | `Text` | `str.strip`, `in`, `startswith`, ASCII `lower`, first-occurrence search |
| `scanner.dfy` | `Scanner` | the outline scanner: header and link patterns, the level stack and the tree |
| `spvhex.dfy` | `SpvHex` | the converter loop, its output format, and a decoder proved to invert it |
| `chapters.dfy` | `Chapters` | the chapter refresher's text and list transforms |

The NDK is replaced by a `Platform` value. It lists the calls that fail, the cameras with their characteristics, and each camera's stream configurations.

- NDK handles are booleans saying which pointers are non-null.
- Stop returns the ordered list of release calls it makes.
- The image callback takes an `Option<Image>`; `None` means no image could be acquired.
- The scripts take file contents, or lines, as inputs and return what they would write.

## Model

In the source column, the app's `main.cpp` is `openxr/camera2_tutorial/app/src/main/cpp/main.cpp`.

| member | source | states |
|---|---|---|
| Native.U32 | openxr/camera2_tutorial/app/src/main/cpp/main.cpp:416 | a conversion to `uint32_t` is the identity on values that already fit |
| Native.I32 | openxr/camera2_tutorial/app/src/main/cpp/main.cpp:302 | a conversion to `int32_t` is the identity on values that already fit |
| Pixels.ClampToByte | openxr/camera2_tutorial/app/src/main/cpp/main.cpp:31-39 | negative values give 0, values above 255 give 255, anything in between is kept |
| Pixels.Swizzled | openxr/camera2_tutorial/app/src/main/cpp/main.cpp:45-49 | the swapped buffer has the same length as the original |
| Pixels.SwizzleSwapsGroups | openxr/camera2_tutorial/app/src/main/cpp/main.cpp:45-49 | in every complete 4-byte group, bytes 0 and 2 trade places and bytes 1 and 3 are unchanged |
| Pixels.SwizzleKeepsTail | openxr/camera2_tutorial/app/src/main/cpp/main.cpp:46 | a trailing partial group is left unchanged |
| Pixels.SwizzleInvolution | openxr/camera2_tutorial/app/src/main/cpp/main.cpp:45-49 | swapping twice gives back the original buffer |
| Pixels.SwizzleRgbaToBgra | openxr/camera2_tutorial/app/src/main/cpp/main.cpp:45-49 | the in-place loop leaves the array equal to `Swizzled` of its old contents |
| Selection.LensScore | openxr/camera2_tutorial/app/src/main/cpp/main.cpp:246-259 | EXTERNAL scores 2 and BACK scores 1, each exactly; any other facing, or no facing entry, scores 0 |
| Selection.SelectCameraId | openxr/camera2_tutorial/app/src/main/cpp/main.cpp:227-277 | the loop, including the fall-back to the first id, returns `SelectedCameraId` |
| Selection.ScanKeepsBest | openxr/camera2_tutorial/app/src/main/cpp/main.cpp:233-267 | once no remaining readable camera beats the best score, the best id is kept |
| Selection.ScanFindsBest | openxr/camera2_tutorial/app/src/main/cpp/main.cpp:233-267 | the scan ends on the earliest readable camera with the top score (strict `>`) |
| Selection.BestCameraExists | openxr/camera2_tutorial/app/src/main/cpp/main.cpp:233-267 | among the first n cameras there is a best readable one, or none of them is readable |
| Selection.SelectedCameraIdChoice | openxr/camera2_tutorial/app/src/main/cpp/main.cpp:227-277 | unreadable cameras are skipped; the earliest highest-scoring readable camera is chosen; the first id is used only when no camera is readable (or the best id is empty); the result is empty only for an empty list |
| Selection.ScanSizesKeeps | openxr/camera2_tutorial/app/src/main/cpp/main.cpp:291-309 | when no remaining candidate scores below the best, the recorded size stays |
| Selection.ScanSizesFinds | openxr/camera2_tutorial/app/src/main/cpp/main.cpp:291-309 | the loop records the size of the earliest YUV_420_888 output group with the least L1 distance |
| Selection.BestSizeAmong | openxr/camera2_tutorial/app/src/main/cpp/main.cpp:291-309 | among the groups before n, the earliest candidate with the least distance below INT32_MAX, or none when every candidate scores INT32_MAX or more |
| Selection.BestSizeExists | openxr/camera2_tutorial/app/src/main/cpp/main.cpp:291-309 | a best group exists as soon as some candidate scores below INT32_MAX |
| Selection.SelectedSize | openxr/camera2_tutorial/app/src/main/cpp/main.cpp:291-309 | starting from INT32_MAX, the recorded size is that of the best group, which exists whenever a candidate scores below INT32_MAX; otherwise the previous size survives |
| Frame.Trunc | openxr/camera2_tutorial/app/src/main/cpp/main.cpp:470-472 | the float-to-int conversion truncates toward zero |
| Frame.Colour | openxr/camera2_tutorial/app/src/main/cpp/main.cpp:466-477 | neutral chroma (128, 128) gives R = G = B = luma; full luma with full V (or U) saturates red (or blue) |
| Frame.RowPointersExact | openxr/camera2_tutorial/app/src/main/cpp/main.cpp:416-462 | the uint32 row offsets of the row pointers (417-419) wrap modulo 2^32, but for every byte a converted pixel reads they equal the exact 64-bit offsets of the bounds checks, because those checks compare against an `int` plane length |
| Frame.PixelBytes | openxr/camera2_tutorial/app/src/main/cpp/main.cpp:474-478 | four bytes, each the pixel's channel byte, or the previous byte if the pixel is skipped |
| Frame.Converted | openxr/camera2_tutorial/app/src/main/cpp/main.cpp:415-480 | the converted buffer has the length of the previous one |
| Frame.ConvertedPixel | openxr/camera2_tutorial/app/src/main/cpp/main.cpp:474-478 | output pixel (x, y) occupies bytes (y·W + x)·4 .. +3 |
| Frame.ConvertedByte | openxr/camera2_tutorial/app/src/main/cpp/main.cpp:415-480 | byte 4q + c belongs to pixel (q mod W, q div W), channel c |
| Frame.ConvertedPixels | openxr/camera2_tutorial/app/src/main/cpp/main.cpp:431-478 | for a buffer of W·H pixels, every converted pixel holds its colour with alpha 255, and every skipped pixel keeps its previous four bytes |
| Frame.ConvertedPixelBytes | openxr/camera2_tutorial/app/src/main/cpp/main.cpp:474-478 | the 4-byte slice of pixel (x, y) is `PixelBytes` of that pixel over the previous slice |
| Frame.SourceCoordExact | openxr/camera2_tutorial/app/src/main/cpp/main.cpp:416-422 | without uint32 wrap-around, output index i samples source index i·src/out (integer division), which lies inside the source |
| Frame.SourceCoordIdentity | openxr/camera2_tutorial/app/src/main/cpp/main.cpp:416-422 | for every size up to 65536, with the output size equal to the source size, the resampling is the identity |
| Frame.SourceCoordWraps | openxr/camera2_tutorial/app/src/main/cpp/main.cpp:416-422 | beyond 65536 the uint32 product wraps and the identity fails: for every equal source and output size above 65536, output index 65536 does not sample source index 65536; at size 65537 it samples index 0 |
| Frame.InterleavedIgnoresPlane2 | openxr/camera2_tutorial/app/src/main/cpp/main.cpp:389-455 | with interleaved chroma, plane 2's data is never read |
| Frame.ConvertedWithinPlane | openxr/camera2_tutorial/app/src/main/cpp/main.cpp:431-439 | a converted pixel's indices are non-negative and below their row strides, and its luma offset is inside the luma plane |
| Frame.PackedSample | openxr/camera2_tutorial/app/src/main/cpp/main.cpp:421-429 | in a tightly packed layout, luma is read at srcX and chroma at srcX/2, both inside their rows and planes |
| Frame.PackedPixelIsGray | openxr/camera2_tutorial/app/src/main/cpp/main.cpp:440-478 | a uniform gray image converts each pixel to (luma, luma, luma) |
| Frame.UniformGrayFrame | openxr/camera2_tutorial/app/src/main/cpp/main.cpp:415-480 | a uniform gray, packed image fills the whole buffer with gray and alpha 255, whatever the sizes |
| Capture.StageRank | openxr/camera2_tutorial/app/src/main/cpp/main.cpp:156-204 | each release call belongs to exactly one stage of Stop |
| Capture.StopUpToOrdered | openxr/camera2_tutorial/app/src/main/cpp/main.cpp:156-204 | the first k stages make their calls in stage order, each at most once |
| Capture.StopUpToMembers | openxr/camera2_tutorial/app/src/main/cpp/main.cpp:156-204 | a call is made exactly when its stage runs and finds its handle non-null |
| Capture.StopReleasesHeld | openxr/camera2_tutorial/app/src/main/cpp/main.cpp:156-204 | Stop releases exactly the non-null handles except the window; it detaches the listener iff there is a reader, and stops repeating iff there is a session |
| Capture.GuardOfRelease | openxr/camera2_tutorial/app/src/main/cpp/main.cpp:189-202 | the call that releases a handle sits behind a check of that same handle |
| Capture.StopInStageOrder | openxr/camera2_tutorial/app/src/main/cpp/main.cpp:156-204 | Stop's calls follow the stage order, so no call is made twice |
| Capture.StopQuiescesFirst | openxr/camera2_tutorial/app/src/main/cpp/main.cpp:159-167 | the listener is detached first, then the session is stopped and closed before anything else is freed |
| Capture.StopUpToPrefix | openxr/camera2_tutorial/app/src/main/cpp/main.cpp:156-204 | the calls of earlier stages come before those of later stages |
| Capture.StopIdempotent | openxr/camera2_tutorial/app/src/main/cpp/main.cpp:156-204 | a second Stop makes no call at all |
| Capture.StopUpToEmpty | openxr/camera2_tutorial/app/src/main/cpp/main.cpp:156-204 | stages that find none of their handles make no call |
| Capture.Resized | openxr/camera2_tutorial/app/src/main/cpp/main.cpp:148 | `std::vector::resize` keeps the first n bytes and zero-fills any new ones |
| Capture.StorePixel | openxr/camera2_tutorial/app/src/main/cpp/main.cpp:474-478 | writes the pixel's four bytes at the output index, writes nothing for a skipped pixel, and leaves all other bytes as they were |
| Capture.ConvertRow | openxr/camera2_tutorial/app/src/main/cpp/main.cpp:421-479 | after row y, bytes up to the row's end match the specification buffer and later bytes are untouched |
| Capture.QuiesceCalls | openxr/camera2_tutorial/app/src/main/cpp/main.cpp:159-167 | Stop's first three stages |
| Capture.FreeSessionCalls | openxr/camera2_tutorial/app/src/main/cpp/main.cpp:169-187 | the request, container, target and session-output releases, appended to the first three stages |
| Capture.CloseCalls | openxr/camera2_tutorial/app/src/main/cpp/main.cpp:189-202 | the last three stages complete Stop's call list |
| Capture.Camera2Capture.constructor | openxr/camera2_tutorial/app/src/main/cpp/main.cpp:539-566 | every handle is null, the sizes are 0, and there is no frame and no capture running |
| Capture.Camera2Capture.Stop | openxr/camera2_tutorial/app/src/main/cpp/main.cpp:156-204 | running becomes false, every handle but the window is cleared, and the calls are `StopCalls` of the handles found |
| Capture.Camera2Capture.SelectCameraSize | openxr/camera2_tutorial/app/src/main/cpp/main.cpp:279-316 | fails with the size unchanged when the configurations cannot be read; otherwise records the `ScanSizes` size, starting from the old one, and succeeds iff both dimensions are non-zero |
| Capture.Camera2Capture.ResizeBuffer | openxr/camera2_tutorial/app/src/main/cpp/main.cpp:148 | the buffer becomes `Resized` of the old one |
| Capture.Camera2Capture.ChooseCamera | openxr/camera2_tutorial/app/src/main/cpp/main.cpp:67-88 | creates the manager, selects the camera id and records its size; true exactly when all of these succeed |
| Capture.Camera2Capture.OpenReader | openxr/camera2_tutorial/app/src/main/cpp/main.cpp:90-102 | true exactly when the reader, its window and the listener are all set up |
| Capture.Camera2Capture.OpenRequest | openxr/camera2_tutorial/app/src/main/cpp/main.cpp:104-121 | true exactly when the device, the request and the target are created and the target is added |
| Capture.Camera2Capture.OpenSession | openxr/camera2_tutorial/app/src/main/cpp/main.cpp:123-146 | true exactly when the session objects are built and the repeating request starts |
| Capture.Camera2Capture.Fail | openxr/camera2_tutorial/app/src/main/cpp/main.cpp:58-62 | the failure path stops everything acquired so far and returns false |
| Capture.Camera2Capture.Acquire | openxr/camera2_tutorial/app/src/main/cpp/main.cpp:67-146 | true exactly when `StartSucceeds`, and then every handle is held; the camera id is the selected one once the manager and the id list are obtained, and is otherwise unchanged |
| Capture.Camera2Capture.Start | openxr/camera2_tutorial/app/src/main/cpp/main.cpp:53-154 | returns true and changes nothing while running; otherwise records the output size, succeeds iff `StartSucceeds`, resizes the buffer on success, and releases everything on failure; the camera id is the selected one once the manager and the id list are obtained, and the camera size from an earlier Start survives a failed selection |
| Capture.Camera2Capture.OnImageAvailable | openxr/camera2_tutorial/app/src/main/cpp/main.cpp:318-506 | a callback while stopped, with no image, or with a rejected image changes neither the buffer nor the pending flag; otherwise the buffer becomes `Converted` of its old contents and a frame is pending |
| Capture.Camera2Capture.GetLatestFrame | openxr/camera2_tutorial/app/src/main/cpp/main.cpp:210-224 | succeeds iff running with a frame pending; it then returns a copy of the buffer and the output size, keeps the buffer, and clears the flag, so a second call without a new frame fails; on failure the caller's values are untouched |
| Compositor.Camera2Tutorial.constructor | openxr/camera2_tutorial/app/src/main/cpp/main.cpp:1162-1167 | there is no cached frame and the camera is stopped |
| Compositor.Camera2Tutorial.ClaimFrame | openxr/camera2_tutorial/app/src/main/cpp/main.cpp:921-936 | a newly claimed frame is cached in an array of its own (never the camera's latest-frame buffer), swapped exactly when the swapchain is blue-first; without a new frame the cache is untouched, so a cached frame is never swapped twice |
| Compositor.Camera2Tutorial.RenderLayer | openxr/camera2_tutorial/app/src/main/cpp/main.cpp:921-961 | after the claim, uploads the cached frame with its size when there is one, else clears; a claimed frame brings the camera's output size, and without a claim the cached bytes and size are kept |
| Compositor.ArrayOf | openxr/camera2_tutorial/app/src/main/cpp/main.cpp:926 | the frame moved into the cache is a fresh array holding the claimed bytes |
| Compositor.UploadedBgra | openxr/camera2_tutorial/app/src/main/cpp/main.cpp:925-944 | for a blue-first swapchain, the uploaded bytes are the claimed frame with R and B traded per pixel, and swapping them back restores it |
| Text.StripLeft | sst_scanner.py:34 | stripping leading whitespace never lengthens the text |
| Text.StripLeftSpec | sst_scanner.py:34 | the result is a suffix that does not start with whitespace, and everything removed is whitespace |
| Text.StripRight | sst_scanner.py:34 | stripping trailing whitespace never lengthens the text |
| Text.StripRightSpec | sst_scanner.py:34 | the result is a prefix that does not end with whitespace, and everything removed is whitespace |
| Text.Strip | sst_scanner.py:34 | stripping never lengthens the text |
| Text.StripSpec | sst_scanner.py:34-40 | `strip` gives a contiguous slice with no whitespace at either end, and everything outside it is whitespace |
| Text.StripAfterStripLeft | sst_scanner.py:37-40 | stripping after a left strip is stripping |
| Text.StripIdempotent | sst_scanner.py:34-40 | stripping twice is stripping once |
| Text.ContainsIff | openxr/tutorial/update_chapters.py:101 | `p in s` holds iff p occurs at some position of s |
| Text.ContainsInContext | openxr/tutorial/update_chapters.py:151 | an occurrence stays an occurrence inside a larger text |
| Text.ContainsTransitive | openxr/tutorial/update_chapters.py:151 | an occurrence of a text containing m is an occurrence of m |
| Text.SkipSpace | openxr/tutorial/update_chapters.py:81 | `\s*` stops at the first non-whitespace character at or after the start |
| Text.IndexFrom | sst_scanner.py:28 | the first occurrence of a character at or after a position, or the end |
| Scanner.HashRun | sst_scanner.py:27-39 | `#+` takes the whole leading run of `#` |
| Scanner.ParseHeaderMatches | sst_scanner.py:27-40 | a line is a header iff it splits into k ≥ 1 hashes followed by whitespace; the level is k and the title is the rest, stripped |
| Scanner.MatchAt | sst_scanner.py:28 | a match at p starts at p and ends inside the line |
| Scanner.MatchAtSound | sst_scanner.py:28 | a match is `[text](target)` with non-empty text free of `]` and non-empty target free of `)` |
| Scanner.MatchAtComplete | sst_scanner.py:28 | every occurrence of that shape at p is the match found there |
| Scanner.NextMatch | sst_scanner.py:63 | the next match starts at or after the search position and ends inside the line |
| Scanner.NextMatchLeftmost | sst_scanner.py:63 | the match found is the leftmost one from the search position; none means there is no match at all |
| Scanner.LinkRelation | sst_scanner.py:69-109 | a link is `near` iff the lowercased text before it mentions "see also" or "references" and the target does not start with "http"; text, target and context (the stripped lowercased prefix) are stored |
| Scanner.LinksFrom | sst_scanner.py:63-109 | every entry a line produces is a link entry |
| Scanner.LinksWellFormed | sst_scanner.py:28-109 | every link entry has non-empty text without `]` and a non-empty target without `)` |
| Scanner.AppendAt | sst_scanner.py:55-104 | appending inside the tree keeps the root list's length, or extends it when the open list is the root's |
| Scanner.AppendAtContainer | sst_scanner.py:55-104 | appending at depth d extends exactly the open list at depth d |
| Scanner.AppendSectionOpens | sst_scanner.py:55-58 | an appended section becomes the open list one level deeper |
| Scanner.AppendAtTwice | sst_scanner.py:63-109 | two appends to the same open list are one append of both |
| Scanner.AppendKeepsNoFollows | sst_scanner.py:42-47 | appending sections with empty `follows`, or link entries, keeps every section's `follows` empty |
| Scanner.Kept | sst_scanner.py:50-51 | the pop loop keeps a prefix of the stack |
| Scanner.KeptParent | sst_scanner.py:49-58 | the root entry is never popped; the entry left on top is the nearest one of lower level; everything popped had the header's level or more; pushing keeps the levels strictly increasing |
| Scanner.AddSection | sst_scanner.py:49-58 | pops to the nearest lower level, appends the new section to that entry's list and opens it |
| Scanner.AddLinks | sst_scanner.py:63-109 | the matches of a line, left to right, are appended to the innermost open list |
| Scanner.LinksHaveNoFollows | sst_scanner.py:104-109 | link entries carry no `follows` list |
| Scanner.LineStep | sst_scanner.py:33-109 | one line keeps the stack and tree well formed: levels strictly increase from 0, the open lists form the last-entry spine, and no `follows` list is filled |
| Scanner.Outline | sst_scanner.py:24-109 | the state after any number of lines is well formed |
| Scanner.OutlineWithoutHeaders | sst_scanner.py:59-109 | a file without headers gives the root a flat list of all its link entries, in file order, with only the root open |
| Scanner.TopLevelHeader | sst_scanner.py:50-58 | a level-1 header closes every open section and becomes the root's last entry |
| Scanner.ScanLine | sst_scanner.py:34-109 | the loop body for one stripped line does `LineStep` |
| Scanner.ScanFile | sst_scanner.py:6-111 | a missing file gives the error; otherwise the root holds the outline of the lines, and its `follows` and `near`, and every section's `follows`, stay empty |
| SpvHex.LeWord | openxr/hello_xr/convert_spv_to_hex.py:19 | a little-endian word of four bytes is below 2^32 |
| SpvHex.HexDigit | openxr/hello_xr/convert_spv_to_hex.py:20 | each digit is a lowercase hexadecimal digit that reads back as its value |
| SpvHex.HexN | openxr/hello_xr/convert_spv_to_hex.py:20 | `:08x` gives exactly eight characters |
| SpvHex.HexNDigits | openxr/hello_xr/convert_spv_to_hex.py:20 | every character written is a lowercase hexadecimal digit |
| SpvHex.ParseHexN | openxr/hello_xr/convert_spv_to_hex.py:20 | zero-padded digits read back as the value |
| SpvHex.Token | openxr/hello_xr/convert_spv_to_hex.py:20 | each token is 11 characters long |
| SpvHex.TokenFormat | openxr/hello_xr/convert_spv_to_hex.py:19-20 | a token is `0x`, eight lowercase digits that read back as the word, and `,` |
| SpvHex.Chunk | openxr/hello_xr/convert_spv_to_hex.py:20-24 | a token with its separator is 12 characters long |
| SpvHex.ChunkValue | openxr/hello_xr/convert_spv_to_hex.py:19-24 | the digits of a word's chunk read back as the word |
| SpvHex.EncodeWords | openxr/hello_xr/convert_spv_to_hex.py:18-24 | the text for m words is 12·m characters long |
| SpvHex.ConvertSpvToHex | openxr/hello_xr/convert_spv_to_hex.py:7-25 | the loop writes `Convert` of the bytes: a size error before any output, or the tokens with separators and a final newline |
| SpvHex.ConvertFailsOnPartialWord | openxr/hello_xr/convert_spv_to_hex.py:13-14 | the input is refused exactly when its length is not a multiple of 4, and the error reports that length |
| SpvHex.ConvertLength | openxr/hello_xr/convert_spv_to_hex.py:18-25 | the output is 12·(n/4) + 1 characters; empty input gives a lone newline |
| SpvHex.ChunkAt | openxr/hello_xr/convert_spv_to_hex.py:18-24 | characters 12k .. 12k+11 are the token of word k and the separator after it (a newline after every eighth token) |
| SpvHex.Decode | openxr/hello_xr/convert_spv_to_hex.py:18-25 | the decoder yields four bytes per 12-character chunk |
| SpvHex.LeBytesOfWord | openxr/hello_xr/convert_spv_to_hex.py:19 | the four bytes of a word come back from its value |
| SpvHex.EncodeWordsNext | openxr/hello_xr/convert_spv_to_hex.py:18-24 | one more word appends its token and separator |
| SpvHex.EncodeWordsSplit | openxr/hello_xr/convert_spv_to_hex.py:18-24 | the text for m words is the text for m - 1 words followed by the last chunk |
| SpvHex.WordBytes | openxr/hello_xr/convert_spv_to_hex.py:19 | byte c of word k is input byte 4k + c |
| SpvHex.DecodeConvert | openxr/hello_xr/convert_spv_to_hex.py:7-25 | decoding the written text gives back the input bytes |
| SpvHex.DecodedByte | openxr/hello_xr/convert_spv_to_hex.py:18-24 | each decoded byte equals the input byte at the same position |
| SpvHex.TextChunk | openxr/hello_xr/convert_spv_to_hex.py:18-25 | the chunk of word k sits at 12k in the written text |
| SpvHex.DecodeAt | openxr/hello_xr/convert_spv_to_hex.py:18-25 | decoded byte j comes from token j / 4 |
| Chapters.IncludeNameComplete | openxr/tutorial/update_chapters.py:81-87 | every line of the form `#include`, whitespace, `<`, whitespace, `GraphicsAPI_` plus at least one non-`>` character, `>` yields that name |
| Chapters.IncludeNameSound | openxr/tutorial/update_chapters.py:81-87 | every name found comes from such a split of the line |
| Chapters.SplitFromCuts | openxr/tutorial/update_chapters.py:81 | the pieces between the cut points the search finds form an accepted line |
| Chapters.CleanMainIncludes | openxr/tutorial/update_chapters.py:80-96 | keeps exactly the `KeptLines` in order, and writes `"\n".join(lines) + "\n"` only when something was dropped |
| Chapters.KeptLinesAppend | openxr/tutorial/update_chapters.py:84-90 | the filter works line by line |
| Chapters.KeptLinesMembers | openxr/tutorial/update_chapters.py:84-90 | a line survives iff it is in the input and does not include a non-Vulkan GraphicsAPI header |
| Chapters.KeptLinesUnchanged | openxr/tutorial/update_chapters.py:92-96 | the lines are unchanged (so nothing is written) iff no line is dropped |
| Chapters.KeptLinesShorter | openxr/tutorial/update_chapters.py:84-90 | the filter never adds lines |
| Chapters.KeptLinesIdempotent | openxr/tutorial/update_chapters.py:84-96 | filtering twice gives the lines of filtering once, so a second run writes nothing |
| Chapters.AnyInIff | openxr/tutorial/update_chapters.py:101 | `any(p in content for p in patterns)` holds iff some pattern is contained |
| Chapters.HasShaderCompilationIff | openxr/tutorial/update_chapters.py:99-101 | the check holds iff one of the four shader patterns occurs somewhere in the content |
| Chapters.UpdateCmakeShaders | openxr/tutorial/update_chapters.py:111-129 | the new file includes the Shaders CMake file iff the original compiled shaders; it always includes the Common one and starts with the fixed stub |
| Chapters.ReplaceAllInserts | openxr/tutorial/update_chapters.py:159 | where the old snippet occurs, its replacement occurs in the result |
| Chapters.NewSnippetHasMarker | openxr/tutorial/update_chapters.py:36-49 | the new snippet carries the marker the guard looks for |
| Chapters.UninstallBlockIdempotent | openxr/tutorial/update_chapters.py:149-159 | the content is kept when the marker is present or the old block is missing; once rewritten, a second run finds the marker and changes nothing |
| Chapters.LastIndexOf | openxr/tutorial/update_chapters.py:189 | the index found holds the character searched for |
| Chapters.LastIndexOfIs | openxr/tutorial/update_chapters.py:189 | the index found is that of the last occurrence of the character |
| Chapters.StrLeTotal | openxr/tutorial/update_chapters.py:192 | Python's string order compares any two names |
| Chapters.StrLeTrans | openxr/tutorial/update_chapters.py:192 | Python's string order is transitive |
| Chapters.InsertSorted | openxr/tutorial/update_chapters.py:192 | inserting into a sorted list keeps it sorted and adds exactly that name |
| Chapters.SortNamesSpec | openxr/tutorial/update_chapters.py:192 | `sorted` returns an ascending permutation of its input |
| Chapters.ChapterZipsMembers | openxr/tutorial/update_chapters.py:192 | the glob keeps exactly the `Chapter*.zip` entries |
| Chapters.ResolveTargets | openxr/tutorial/update_chapters.py:184-194 | with names, one (root/stem, root/stem.zip) pair per name in order; without, one (root/stem, zip path) pair per sorted `Chapter*.zip` entry |
| Chapters.NamedTargets | openxr/tutorial/update_chapters.py:188-190 | one pair per name, in the given order |
| Chapters.ZipTargets | openxr/tutorial/update_chapters.py:192-193 | one pair per zip, in the given order |
| Chapters.ChapterZipStem | openxr/tutorial/update_chapters.py:192-193 | the stem of root/ChapterN.zip is ChapterN, and adding `.zip` gives the entry back |
| Chapters.ResolvedZips | openxr/tutorial/update_chapters.py:192 | the glob branch visits every `Chapter*.zip` entry once, in ascending order |

## Left out

- The OpenXR instance, session, swapchain and frame loop of the tutorial app are not modelled; they are foreign API calls. Nor are acquiring, waiting on and releasing the quad swapchain image in `RenderLayer`. The centred upload (`UploadRgbaToImageCentered`) belongs to a graphics class that is not part of this model. The upload is represented by the bytes and size it is given.
- The NDK camera calls are replaced by a `Platform` value saying which calls fail. The camera-id list is deleted without effect on the model. Device and session state callbacks only log, and are not modelled.
- Concurrency is not modelled: the frame mutex, the atomic running flag, the unlocked pre-check in GetLatestFrame, and the permission flag. The image callback and the consumer run one at a time.
- Logging is not modelled: the FPS and centre-pixel logging, the frame counter and clock, the first-frame format log, and the upload and clear counters.
- Frame.Colour: the colour formula uses exact reals for the float coefficients, so float rounding is not modelled. Only the neutral-chroma case and saturation are stated.
- `m_uvIsVU` is only ever set to false, so the swapped-chroma branch of the interleaved read is not modelled.
- The callback's resize of the buffer when its size differs from the output size never happens in the model: the class invariant keeps the buffer at W·H·4 bytes while capture runs.
- Capture.Camera2Capture.Stop: the window handle is never cleared by the source, and the model keeps it. `Released` therefore allows the window to remain.
- Frame.SourceCoordIdentity: holds only for sizes up to 65536. At main.cpp lines 416 and 422 the product `y * srcHeight` (and `x * srcWidth`) is uint32 and wraps beyond that, so the scaler does not map an equal-sized frame onto itself; Frame.SourceCoordWraps states the failure.
- Selection.SelectedSize: the L1 distance is computed with unbounded integers. At main.cpp line 302 it is a 32-bit `int` sum, which overflows (undefined behaviour) when the distance exceeds INT32_MAX, e.g. for desired sizes near 2^31; the model does not say what the compiled code does then.
- Selection.SelectedCameraIdChoice: an empty best id falls back to the first id, as the source does; the "empty only for an empty list" clause is stated for lists whose ids are all non-empty.
- Text.LowerAscii: Python's `lower()` is modelled on ASCII letters only.
- Text.IsSpace: whitespace is Python's `str.isspace` for the characters modelled. Line splitting (`splitlines`) is not modelled: the scanner and the include filter take the lines as input.
- The scanner's file-existence check and file reading are replaced by an optional list of lines. YAML output and the command line are not modelled.
- The scanner's computed internal/external `type_` is discarded, as in the source, so it is not part of a link entry.
- Chapter-refresher file I/O is not modelled: the contents are inputs and what would be written is the result. The "missing file" branches of `clean_main_includes`, `update_cmake` and `update_common_uninstall_block` only print, and are not modelled.
- `extract_chapter`, `update_app_gradle`, `remove_gradle_properties`, `process_chapter` and `main` are not modelled. They are zip extraction, directory removal, fixed-template writes and argument parsing.
- Chapters.UpdateCmake: the template is modelled as its lines joined with newlines plus a final newline, which is the same text.
- Chapters.ResolveTargets: paths are strings joined with `/`, and the glob is given as a listing of entry names without `/`. Path normalisation (trailing or repeated separators) is not modelled.
- SpvHex.ConvertSpvToHex: reading and writing the files is replaced by the byte string in and the text out.
