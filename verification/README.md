# Camera and gralloc HAL: a verified model

This project models five parts of the Samsung Exynos5 camera and graphics HAL and proves what each is for.
Every file is one Dafny module; `dafny verify dfyconfig.toml` checks all of them.

**Exif segment and JPEG splice** (`Bytes`, `Tiff`, `ExifTags`, `ExifRecord`, `ExifLayout`, `ExifDocument`,
`ExifSegment`, `ExifWriter`, `JpegSplice`). `Tiff` is a reader of its own, written from TIFF 6.0 Section 2 and Exif 2.2
sections 4.6.2 and 4.7.2; `ExifDocument` lists, with the numbers of the standard, what a record stands for;
`ExifSegment` says in closed form what the segment is; `ExifWriter` is the imperative writer over one byte array with
its two cursors, back-patched slots and rollback, and is proved to write exactly that closed form; the reader is proved
to recover the record from it. `JpegSplice` is the in-place insertion into the JPEG; `FinishedFile` and
`ThumbnailFound` say in the standard's terms what a reader of the finished file finds.
Six facts about the code came out:
- A maker, model or software string of fewer than four characters sits in the value pool although TIFF wants it
  inside the entry, so a reader takes offset bytes for the value. `ReadBackExact` is the exact condition.
- The rollback compares the TIFF offset with the 64K limit, the splice the whole segment, ten bytes longer. A
  thumbnail in that gap loses the picture all its Exif data. `InsertedUnlessInTheGap` is the exact condition.
- `makeExif` puts the comment's code in front of the comment in the caller's own record. The code starts with a
  NUL, so the next picture from the same record has an empty comment (`CommentOfNextPicture`).
- The code does not fit in the field in front of a comment of 142 to 149 characters: the move runs over the width
  and the height, which follow the field in the record (libcamera/ExynosExif.h:184-187) and are written afterwards.
  With 142 characters the Exif IFD gives a width of 1920 as 1792 (`LongCommentChangesTheWidth`), and so do both
  directories of the next picture unless the caller sets the width anew, which this camera does for pictures with a
  thumbnail (`WidthOfNextPicture`). `DimensionsExact` says when both sizes survive. No caller in the repository sets
  such a comment; its own has 13 characters.
- A GPS processing method of 100 characters or more fills its field without a NUL (libcamera/ExynosCamera.cpp:3012-3025);
  the cut in `makeExif` is for this case, and `WriteMethod` covers it.
- The code's eight bytes are the Exif character code spelled backwards; the model writes them as the program does.

**Stream demultiplexers and the area list** (`SplitFrame`, `InterleaveData`, `AreaList`). Each parser is a loop over
bytes, proved to undo a printer. `m_splitFrame` misses an EOI marker whose second byte opens a chunk of two or more
bytes behind a video line: `SplitInverts` holds exactly when the first EOI is not hidden in this way, and
`HiddenEoiIsMissed` is a frame that is rejected for it. A frame without EOI is accepted when the byte behind it
completes one (`SplitRejects`, `AcceptedWithoutEoi`). Every sequence of bytes is a frame that these results speak of
(`EveryFrameIsWellFormed`); one that ends inside a marker, with no EOI in front, leads to a copy of negative length
when there is a video buffer. The area-list parser also takes groups of four numbers, with the weight of the group
before; a first group of four gets what the uninitialised scratch array happens to hold.

**Preview buffers** (`PreviewState`, `PreviewBuffers`). `PreviewState` is the protocol between window, HAL and driver
as a state machine in which window and driver choose freely, `PreviewBuffers` the methods of the HAL and the camera
over their arrays, each proved to be one step of it; `FrameShown`, `StartDoes` and `StopDoes` say what each does. A
window that takes a buffer and then hands out none is outside the runs; `FailedDequeueSharesTheBuffer` shows what it
does to ownership.

**Geometry and resampling** (`Arithmetic`, `CropGeometry`, `Downscale`). The two crop functions with exact fractions
in place of floats, and the sampling loops over raw buffers. Both crop functions can leave the source;
`CropInside` and `RatioRectInside` say exactly when. `m_YUY2toNV21` writes more than an NV21 buffer holds exactly
when a side is odd.

**Allocators** (`GrallocLayout`, `Gralloc`, `JpegMemory`). The layouts of all formats, the allocation with its cleanup
paths under any answers of ION, and the JPEG encoder's planes. `SamplesInside` says exactly for which sizes the
buffers hold the picture: semi-planar formats lack a chroma row when the height is one more than a multiple of 64,
the application's YV12 when it is odd, its NV21 when a side is odd. `allocJpegMemory` takes a buffer numbered 0 for a
failure and never frees it (`ZeroIsLost`); `Session` says that this is lost exactly when ION answers 0, and nothing
else ever is.

The codec, ION, the window, gralloc, the driver, the sensor and the clock appear as parameters or as methods that
answer freely. Integers are unbounded except where the width is what the code is about (the segment length, the
stored words, the unsigned corner of a crop window).

## Model

| member | source | states |
|---|---|---|
| ExifLayout.DecodeInverse | libcamera/ExynosJpegEncoderForCamera.cpp:616-689 | for values of every type the writer uses, decoding the bytes by the type and count of the entry gives the value back |
| ExifLayout.ReadEntryInverse | libcamera/ExynosJpegEncoderForCamera.cpp:616-689 | a TIFF reader finds an entry's tag, type, count and value, in the entry or at the stored offset, wherever in the file the directory lies |
| ExifLayout.ReadIfdInverse | libcamera/ExynosJpegEncoderForCamera.cpp:380-476 | the reader recovers a whole directory, entry count and next-IFD offset included, from any file that holds its bytes |
| ExifLayout.PoolCongruent | libcamera/ExynosJpegEncoderForCamera.cpp:479-494 | filling in a pointer later moves no pooled value |
| ExifLayout.SeenIsPlain | libcamera/ExynosJpegEncoderForCamera.cpp:651-669 | a directory of fields that are stored where TIFF wants them is read back with exactly its values |
| ExifDocument.PrimaryStands | libcamera/ExynosJpegEncoderForCamera.cpp:391-415 | the 0th IFD holds each value of the record under the number that Exif 2.2 section 4.6.4 gives its tag, names up to their NUL |
| ExifDocument.ExifStands | libcamera/ExynosJpegEncoderForCamera.cpp:428-473 | so does the Exif IFD, with the comment's bytes written out and the last three values as LONG |
| ExifDocument.GpsStands | libcamera/ExynosJpegEncoderForCamera.cpp:495-524 | so does the GPS IFD, with or without the processing method and its prefix |
| ExifDocument.ThumbnailStands | libcamera/ExynosJpegEncoderForCamera.cpp:563-582 | so does the 1st IFD, with the place and the length of the JPEG bytes |
| ExifDocument.TypeCodes | libcamera/ExynosExif.h:39-46 | each entry has the type code of TIFF 6.0 Section 2 for its value in its third and fourth byte |
| ExifRecord.OffsetBounds | libcamera/ExynosExif.h:48-48 | everything but the thumbnail's JPEG bytes fits in the 28800 bytes that the encoder allocates, for every record whose names and comment are terminated in their fields |
| ExifRecord.DimensionsExact | libcamera/ExynosJpegEncoderForCamera.cpp:456-467 | width and height survive the comment if and only if it has at most 141 characters or what it overwrites is equal |
| ExifSegment.Parts | libcamera/ExynosJpegEncoderForCamera.cpp:368-594 | header, directories and pools tile the TIFF part in order, without gap or overlap, each at the offset that the pointers name |
| ExifSegment.TagsAscending | libcamera/ExynosJpegEncoderForCamera.cpp:391-582 | the tags of each of the four directories ascend strictly, as TIFF 6.0 Section 2 asks |
| ExifSegment.ReadBack | libcamera/ExynosJpegEncoderForCamera.cpp:359-611 | reading the TIFF part gives the expected document for every record with terminated names and comment, long comments included, with or without GPS, thumbnail and processing method, which may fill its field |
| ExifSegment.NameSeen | libcamera/ExynosJpegEncoderForCamera.cpp:395-402 | a pooled string is read back as written exactly when it is long enough or happens to equal the offset's own bytes |
| ExifSegment.ReadBackExact | libcamera/ExynosJpegEncoderForCamera.cpp:359-611 | the document read back holds exactly the values that the record had before the call, under the literal tags of the standard, if and only if maker, model and software are readable and the comment leaves the pixel dimensions alone; four characters each and at most 141 suffice |
| ExifSegment.RolledBack | libcamera/ExynosJpegEncoderForCamera.cpp:591-597 | a reader finds an offered thumbnail, byte for byte, if and only if it ends at most 0x10000 bytes behind the TIFF header; otherwise it finds none and the next-IFD offset is 0 |
| ExifSegment.RecordedExactly | libcamera/ExynosJpegEncoderForCamera.cpp:456-467 | the Exif IFD is written with the record's values if and only if both pixel dimensions survive the comment |
| ExifSegment.LongCommentChangesTheWidth | libcamera/ExynosJpegEncoderForCamera.cpp:456-467 | with a comment of 142 characters a reader finds the width in the 0th IFD and the width without its lowest byte in the Exif IFD: 1792 for 1920 |
| ExifSegment.ShortMakerIsMisread | libcamera/ExynosJpegEncoderForCamera.cpp:395-396 | no record whose maker has no, two or three characters, as "LGE", is read back with its values |
| ExifWriter.PutEntry | libcamera/ExynosJpegEncoderForCamera.cpp:622-629 | four copies through the cursor store the twelve bytes of the entry and nothing else |
| ExifWriter.WriteIfdValue | libcamera/ExynosJpegEncoderForCamera.cpp:616-630 | writes the next entry of the directory with its number inside; what was written before stays |
| ExifWriter.WriteIfdInline | libcamera/ExynosJpegEncoderForCamera.cpp:632-649 | the same for up to four bytes, padded with zeros |
| ExifWriter.WriteIfdBytes | libcamera/ExynosJpegEncoderForCamera.cpp:651-669 | writes the entry and appends the bytes to the pool; the stored offset is where they are |
| ExifWriter.WriteIfdRationals | libcamera/ExynosJpegEncoderForCamera.cpp:671-689 | the same for rationals, eight bytes each |
| ExifWriter.WritePrimaryIfd | libcamera/ExynosJpegEncoderForCamera.cpp:380-415 | fills the 0th IFD up to the Exif pointer and reserves the slots for the GPS entry and the next-IFD offset |
| ExifWriter.PrefixComment | libcamera/ExynosJpegEncoderForCamera.cpp:456-459 | the comment field, and past 141 characters the width and height behind it, become the code followed by the old text and its NUL; nothing else changes |
| ExifWriter.CommentLost | libcamera/ExynosJpegEncoderForCamera.cpp:456-461 | a field that was prefixed once reads as an empty comment |
| ExifWriter.BehindStored | libcamera/ExynosExif.h:184-187 | the eight bytes behind the field are then those that the specification takes for width and height |
| ExifWriter.WriteExifPrivate | libcamera/ExynosJpegEncoderForCamera.cpp:417-476 | the Exif IFD with its pool, and with the pixel dimensions read from behind the prefixed comment, stands at its place, complete, and nothing outside it changed |
| ExifWriter.WriteMethod | libcamera/ExynosJpegEncoderForCamera.cpp:512-522 | the processing method is written as prefix and text; one that fills its field, with strlen running on behind it, is cut at 100 bytes |
| ExifWriter.WriteGpsIfd | libcamera/ExynosJpegEncoderForCamera.cpp:483-527 | the GPS IFD with its pool stands at its place, with or without the processing method, and nothing outside it changed |
| ExifWriter.WriteGps | libcamera/ExynosJpegEncoderForCamera.cpp:478-528 | back-patches the reserved GPS entry and writes the GPS IFD; of what was written before, only that entry changes |
| ExifWriter.WriteMain | libcamera/ExynosJpegEncoderForCamera.cpp:368-528 | everything in front of the thumbnail is in place, with the next-IFD slot still free |
| ExifWriter.WriteThumbnail | libcamera/ExynosJpegEncoderForCamera.cpp:557-590 | the 1st IFD and behind it the thumbnail, where the 1st IFD points |
| ExifWriter.FinishTiff | libcamera/ExynosJpegEncoderForCamera.cpp:553-599 | thumbnail, next-IFD offset and rollback: past the limit the TIFF part is the one without thumbnail, next-IFD offset 0 and its size; of what was written before, only the next-IFD offset changes |
| ExifWriter.WriteMarker | libcamera/ExynosJpegEncoderForCamera.cpp:601-608 | marker and big-endian length, two less than the segment, in front of the finished TIFF part; nothing else changes |
| ExifWriter.MakeExif | libcamera/ExynosJpegEncoderForCamera.cpp:359-611 | the output starts with exactly the segment of the record, with the thumbnail if it fits under the limit; all writes stay in the allocation and below a stated bound; what becomes of the comment field and of the two sizes behind it |
| JpegSplice.InsertSegment | libcamera/ExynosJpegEncoderForCamera.cpp:345-348 | the overlapping in-place move leaves the first two bytes, the segment, then the rest, and touches nothing behind |
| JpegSplice.ExifInfo.MakeSegment | libcamera/ExynosJpegEncoderForCamera.cpp:359-611 | on the record in memory: the segment of the record as it was, and afterwards the record with the width and height that the comment left |
| JpegSplice.Encode | libcamera/ExynosJpegEncoderForCamera.cpp:266-357 | each status exactly under its condition, with the output untouched; else the JPEG with the segment spliced in, or untouched when there is none to insert; the record stays usable, with what the comment did to it |
| JpegSplice.LengthExact | libcamera/ExynosJpegEncoderForCamera.cpp:345-345 | the two length bytes give the length back if and only if it is below 64K, which the guard ensures |
| JpegSplice.SplicedReadBack | libcamera/ExynosJpegEncoderForCamera.cpp:345-354 | a reader of the finished file finds the document of the record in the APP1 segment and the original JPEG data behind it |
| JpegSplice.FinishedFile | libcamera/ExynosJpegEncoderForCamera.cpp:266-357 | a reader of the finished file finds exactly the record's values, with the thumbnail that ends by 0x10000, if and only if the names are readable and the comment leaves the pixel dimensions alone |
| JpegSplice.ThumbnailFound | libcamera/ExynosJpegEncoderForCamera.cpp:311-345 | a thumbnail that ends at most 0x10000 - 10 bytes behind the TIFF header is found byte for byte; one that ends past 0x10000, and none, leave the rest in place without it; only one in between costs the Exif data |
| JpegSplice.InsertedUnlessInTheGap | libcamera/ExynosJpegEncoderForCamera.cpp:591-595 | no segment is inserted if and only if the thumbnail puts the offset in the last ten bytes under the limit |
| JpegSplice.GapExists | libcamera/ExynosJpegEncoderForCamera.cpp:345-345 | for every record there is a thumbnail that loses the picture its Exif data |
| JpegSplice.CommentOfNextPicture | libcamera/ExynosCamera.cpp:3696-3697 | a reader of the written bytes finds code, text and NUL under the comment's tag in the first picture, and code and NUL only in the next one from the same record |
| JpegSplice.WidthOfNextPicture | libcamera/ExynosJpegEncoderForCamera.cpp:391-394 | the width that the comment left is what a reader finds in both directories of the next picture from the same record |
| SplitFrame.RunIsDecode | libcamera/ExynosCameraHWInterface.cpp:3619-3711 | on an interleaved frame the loop over bytes does what a loop over its segments does; it computes a negative copy length exactly when it reaches an end of the frame inside a marker |
| SplitFrame.EveryFrameIsWellFormed | libcamera/ExynosCameraHWInterface.cpp:3643-3692 | every frame, line lengths and memory behind it are an interleaved frame: full lines behind FF BE FF BF, JPEG chunks that do not start so, and at most one line cut off by the end |
| SplitFrame.HiddenIs | libcamera/ExynosCameraHWInterface.cpp:3665-3689 | hidden means: the byte is the first of a chunk of two or more, and the segment in front of it is a video line; the video in front is that of the segments before |
| SplitFrame.DecodeStream | libcamera/ExynosCameraHWInterface.cpp:3647-3692 | the JPEG through its first EOI and the video lines before it are delivered if and only if that EOI is not hidden; else more or nothing |
| SplitFrame.SplitInverts | libcamera/ExynosCameraHWInterface.cpp:3619-3711 | for every interleaved frame, chunk lengths, line cut off at the end and memory behind: true with exactly the JPEG through the first FF D9 and the earlier video lines, EOI split or not, if and only if it is not hidden; else what it delivers, if anything, runs past that EOI |
| SplitFrame.HiddenEoiIsMissed | libcamera/ExynosCameraHWInterface.cpp:3647-3689 | a well-formed frame of three segments with a hidden EOI, which is rejected |
| SplitFrame.SplitRejects | libcamera/ExynosCameraHWInterface.cpp:3694-3707 | a frame without EOI is accepted if and only if it ends in a JPEG chunk whose last byte FF is completed to an EOI by the byte behind the frame; a copy of negative length happens if and only if it ends inside a marker |
| SplitFrame.AcceptedWithoutEoi | libcamera/ExynosCameraHWInterface.cpp:3670-3681 | a two-byte frame without EOI that is accepted |
| SplitFrame.FindEoiMarkerInJpeg | libcamera/ExynosCameraHWInterface.cpp:3600-3617 | finds the first EOI marker that starts in the buffer, or none, reading one byte past it |
| SplitFrame.JpegChunk | libcamera/ExynosCameraHWInterface.cpp:3665-3689 | one JPEG chunk is copied and searched as the specified step does, an EOI split over two chunks included |
| SplitFrame.SplitFrame | libcamera/ExynosCameraHWInterface.cpp:3619-3711 | the method delivers what the loop's specification says, rejects bad sizes, and terminates; a line cut off by the frame's end is a copy of negative length only when there is a video buffer |
| InterleaveData.RunInvertsPrint | libcamera/ExynosCameraHWInterface.cpp:3713-3774 | decoding undoes printing for every list of the three padding words, JPEG words that are none of them and no start code, and YUV lines between FF 05 and FF 06, with or without anything readable behind the data |
| InterleaveData.BrokenLine | libcamera/ExynosCameraHWInterface.cpp:3753-3760 | behind any such data a line without FF 06 behind its pixels breaks the decoding |
| InterleaveData.ShortMemory | libcamera/ExynosCameraHWInterface.cpp:3735-3756 | behind any such data a word or a line for which the memory ends too early is a read past the memory |
| InterleaveData.TrimSuffices | libcamera/ExynosCameraHWInterface.cpp:3776-3786 | three steps always suffice: what is dropped is all FF and the last kept byte is not |
| InterleaveData.RemovePadding | libcamera/ExynosCameraHWInterface.cpp:3776-3786 | the method drops at most three trailing FF bytes |
| InterleaveData.DecodeInterleaveData | libcamera/ExynosCameraHWInterface.cpp:3713-3796 | the method's outputs and result are those of the specified loop, trim and line count; a fault is exactly a read behind the data buffer, or in front of the JPEG buffer |
| InterleaveData.DecodeInverts | libcamera/ExynosCameraHWInterface.cpp:3713-3796 | on printed data with a JPEG word: the outputs are the in-order concatenations, success holds exactly for `yuvHeight` lines, and only FF padding is trimmed |
| InterleaveData.DecodableIsPrinted | libcamera/ExynosCameraHWInterface.cpp:3713-3774 | the converse: whatever decodes without a broken line or an overrun is the printing of a list of tokens |
| InterleaveData.PrintInjective | libcamera/ExynosCameraHWInterface.cpp:3713-3774 | no stream has two readings |
| AreaList.AtoiOfPrint | libcamera/ExynosCameraHWInterface.cpp:4010-4029 | atoi of a printed number is the number, whatever non-digit follows |
| AreaList.ParseInverts | libcamera/ExynosCameraHWInterface.cpp:3939-3980 | a printed list of areas, with any other text between them, parses back to exactly its first `num` areas |
| AreaList.FourNumbersKeepTheWeight | libcamera/ExynosCameraHWInterface.cpp:3982-4032 | a group of four numbers is accepted; behind another group it gets that group's weight, as the first one what the scratch array held |
| AreaList.MoreNumbersAreIgnored | libcamera/ExynosCameraHWInterface.cpp:4018-4029 | numbers behind the fifth of a group are ignored |
| AreaList.ShortGroupEnds | libcamera/ExynosCameraHWInterface.cpp:3964-3967 | a group with fewer than three commas ends the list |
| AreaList.AtoiSkips | libcamera/ExynosCameraHWInterface.cpp:4010-4029 | blanks and a plus sign in front of a number change nothing |
| AreaList.PrintedGroupsFit | libcamera/ExynosCameraHWInterface.cpp:3945-3965 | groups of at most 127 characters meet the parser's demand on its scratch string |
| AreaList.FindBrackets | libcamera/ExynosCameraHWInterface.cpp:3953-3959 | the two searches find exactly the next bracketed group, or there is none |
| AreaList.SubBracketsToInts | libcamera/ExynosCameraHWInterface.cpp:3982-4032 | the scratch numbers become those of the group, one by one, as far as it has them |
| AreaList.BracketsToInts | libcamera/ExynosCameraHWInterface.cpp:3939-3980 | returns the number of areas that the specification parses and fills exactly that prefix of rectangles and weights |
| PreviewState.StepKeeps | libcamera/ExynosCameraHWInterface.cpp:2374-2735 | every step of every party keeps the ownership invariant |
| PreviewState.RunKeeps | libcamera/ExynosCameraHWInterface.cpp:2374-2735 | so does every run |
| PreviewState.Ownership | libcamera/ExynosCameraHWInterface.cpp:2374-2735 | in every run each buffer has exactly one owner; while streaming the available slots are exactly the queued ones, eight less the undequeued; after stop all eight are with the window |
| PreviewState.FramesPossible | libcamera/ExynosCameraHWInterface.cpp:2556-2678 | a frame in any queued slot can always be shown, with exactly the buffers that the window holds or gets as its next one |
| PreviewState.StartPossible | libcamera/ExynosCameraHWInterface.cpp:2394-2462 | from an idle state any order of the eight buffers and any slots given back are a start |
| PreviewState.FrameShown | libcamera/ExynosCameraHWInterface.cpp:2556-2678 | a shown frame's buffer goes to the window and the dequeued one to the driver, in the slot with its address, and nothing else moves; a skipped frame only lowers the count, one after a stop request changes nothing |
| PreviewState.StartDoes | libcamera/ExynosCameraHWInterface.cpp:2394-2473 | slot i gets the i-th buffer, in all tables; the slots given back are the window's, the others queued; eight frames are to be skipped |
| PreviewState.StopDoes | libcamera/ExynosCameraHWInterface.cpp:2487-2525 | a stop is possible after every request; the window then has all buffers, and the slots that were queued have lost their handle |
| PreviewState.FirstFramesSkipped | libcamera/ExynosCameraHWInterface.cpp:2579-2592 | a run of at most as many frames as are to be skipped changes nothing but that number |
| PreviewState.FailedDequeueSharesTheBuffer | libcamera/ExynosCameraHWInterface.cpp:2612-2629 | when the window takes the frame's buffer and hands out none, that buffer is queued at the driver again and has two owners |
| PreviewBuffers.Preview.constructor | libcamera/ExynosCameraHWInterface.cpp:2374-2384 | a fresh preview is idle and the window holds all buffers |
| PreviewBuffers.Preview.GetPreviewBuf | libcamera/ExynosCamera.cpp:1311-1349 | refused before the driver is started; else the driver hands over the slot, and the buffer noted for it is returned |
| PreviewBuffers.Preview.PutPreviewBuf | libcamera/ExynosCamera.cpp:1351-1384 | the slot is queued with the buffer noted for it, unless it has none |
| PreviewBuffers.Preview.SetWidthHeight | libcamera/ExynosCamera.cpp:3385-3500 | exactly the slots with a buffer are valid and queued |
| PreviewBuffers.Preview.PreviewThreadFunc | libcamera/ExynosCameraHWInterface.cpp:2556-2735 | one frame is one frame step of the state machine: skipped, put back or shown; nothing happens before the driver is started |
| PreviewBuffers.Preview.StopPreviewInternal | libcamera/ExynosCameraHWInterface.cpp:2487-2525 | stopping is the stop step: the driver drops its queue and every available slot goes back to the window |
| PreviewBuffers.Preview.StartPreviewInternal | libcamera/ExynosCameraHWInterface.cpp:2374-2485 | starting is the start step: eight buffers dequeued and noted, the driver started, the undequeued ones cancelled |
| CropGeometry.ShrinkLargest | libcamera/ExynosCamera.cpp:3590-3612 | before rounding, no window of the target's exact ratio inside the source is wider or higher |
| CropGeometry.ZoomedBetween | libcamera/ExynosCamera.cpp:3614-3624 | the zoom leaves at least a quarter of a side and cuts more the higher it is |
| CropGeometry.HighestZoom | libcamera/ExynosCamera.cpp:3614-3624 | the highest zoom leaves a quarter of a side, but for less than a pixel a step |
| CropGeometry.RoundedInside | libcamera/ExynosCamera.cpp:3627-3646 | rounding a side leaves the source if and only if it rounds up past an unaligned side |
| CropGeometry.GetCropRect | libcamera/ExynosCamera.cpp:3577-3652 | the method computes the specified window |
| CropGeometry.CropInside | libcamera/ExynosCamera.cpp:3577-3652 | the window lies inside the source if and only if two explicit conditions on the sizes and the zoom fail; always when each side of the source is aligned or not below the target's |
| CropGeometry.CropTooWideUnzoomed | libcamera/ExynosCamera.cpp:3627-3635 | without zoom the first condition is one on the two sizes alone |
| CropGeometry.CropCanLeaveTheSource | libcamera/ExynosCamera.cpp:3627-3649 | a concrete input whose window is wider than the source and whose corner wraps around |
| CropGeometry.CropAligned | libcamera/ExynosCamera.cpp:3626-3649 | width a multiple of 16, height even; a side inside the source is centred to within a pixel, and the corner of one that is too long is half of the wrapped difference |
| CropGeometry.CropShrinksWithZoom | libcamera/ExynosCamera.cpp:3614-3624 | neither side ever grows with the zoom |
| CropGeometry.CropZooms | libcamera/ExynosCamera.cpp:3590-3646 | in numbers: up to the rounding to 16 and to 2, each side is what the target's ratio leaves less a fixed part of three quarters of it for each step of zoom |
| CropGeometry.CropAtTheHighestZoom | libcamera/ExynosCamera.cpp:3614-3646 | the window at the highest zoom has a quarter of the sides that it has without zoom, up to the rounding |
| CropGeometry.CropOfTheSameSize | libcamera/ExynosCamera.cpp:3584-3646 | a source of the target's size is never zoomed, only cut to multiples of 16 and of 2 |
| CropGeometry.CropKeepsTheRatio | libcamera/ExynosCamera.cpp:3590-3646 | without zoom the window's ratio differs from the target's by less than 16 target heights and 2 target widths, cross-multiplied, for all positive sizes |
| CropGeometry.GetRatioSize | libcamera/ExynosCameraHWInterface.cpp:4034-4117 | the method computes the specified window, through all four branches |
| CropGeometry.RatioRectInside | libcamera/ExynosCameraHWInterface.cpp:4034-4117 | all four numbers are even, and the window lies inside the source if and only if an explicit condition on the sizes and the zoom holds |
| CropGeometry.RatioRectZooms | libcamera/ExynosCameraHWInterface.cpp:4034-4117 | in numbers: up to the rounding to 2, each side is what the cut leaves divided by (zoom + 10) / 10, or undivided for equal ratios; the window is centred to within three pixels |
| CropGeometry.RatioRectOfAFittingTarget | libcamera/ExynosCameraHWInterface.cpp:4034-4117 | a target that fits on both axes gets a window inside the source at every zoom, centred to within three pixels |
| CropGeometry.RatioRectCanLeaveTheSource | libcamera/ExynosCameraHWInterface.cpp:4055-4065 | a concrete input whose window is higher than the source |
| Downscale.ScaleDownYuv422 | libcamera/ExynosJpegEncoderForCamera.cpp:691-723 | refuses odd targets; else writes exactly the samples of the grid, each once, every read in bounds, and nothing behind |
| Downscale.HwScaleDownYuv422 | libcamera/ExynosCameraHWInterface.cpp:3509-3539 | the camera's copy writes the very same bytes |
| Downscale.PackedDownIs | libcamera/ExynosJpegEncoderForCamera.cpp:691-723 | byte by byte: macropixel (y, g) of the output is the source's at row y * (srcH / dstH) and column g * (srcW / dstW), inside the source, and the output has no other bytes |
| Downscale.ScaleDownYuv422TwoBuffers | libcamera/ExynosJpegEncoderForCamera.cpp:725-770 | both planes are sampled, every read in bounds, nothing behind them touched |
| Downscale.ScaleDownYuv422OneBuffer | libcamera2/ExynosJpegEncoderForCamera.cpp:688-730 | luma then chroma are sampled from one buffer into one buffer, every read in bounds, nothing behind touched |
| Downscale.LumaDownIs | libcamera/ExynosJpegEncoderForCamera.cpp:740-751 | byte by byte: sample (y, x) is the source's at row y * (srcH / dstH) and column x * (srcW / dstW) |
| Downscale.ChromaDownIs | libcamera/ExynosJpegEncoderForCamera.cpp:753-767 | byte by byte: pair (y, g) is one whole pair of the source's at row y * (srcH / dstH) and column g * (srcW / dstW), wherever the plane starts |
| Downscale.SamplesSpan | libcamera/ExynosJpegEncoderForCamera.cpp:702-703 | the samples span the source but for less than one a target row or column, and evenly when the target divides it |
| Downscale.OneBufferAgrees | libcamera2/ExynosJpegEncoderForCamera.cpp:688-730 | on concatenated planes the one-buffer result is the concatenation of the two-buffer results |
| Downscale.Yuy2ToNv21 | libcamera/ExynosCameraHWInterface.cpp:3541-3570 | writes exactly the specified picture, odd sides included, and nothing behind it |
| Downscale.Nv21Is | libcamera/ExynosCameraHWInterface.cpp:3547-3556 | every pixel keeps its luma, in every row and column |
| Downscale.Nv21ChromaIs | libcamera/ExynosCameraHWInterface.cpp:3557-3567 | every chroma pair is the last and the second byte, Cr and Cb, of the macropixel in that column of every second row |
| Downscale.Nv21FitsItsBuffer | libcamera/ExynosCameraHWInterface.cpp:3557-3567 | the result fits one and a half bytes a pixel if and only if both sides are even |
| GrallocLayout.AlignLeast | include/exynos_format.h:61-61 | ALIGN is the least multiple not below its argument |
| GrallocLayout.KnownHasLayout | gralloc/gralloc.cpp:138-160 | exactly the named formats have a layout, whatever the size |
| GrallocLayout.RgbIs | gralloc/gralloc.cpp:138-171 | packed formats in numbers: bytes a pixel, rows of whole 16 bytes, 16 rows or two spare ones, whole pages |
| GrallocLayout.ExynosYv12Is | gralloc/gralloc.cpp:238-246 | planar YV12 in numbers: the least multiples that its stride, rows and chroma rows are, its three sizes and planes |
| GrallocLayout.SemiPlanarIs | gralloc/gralloc.cpp:247-257 | the semi-planar formats in numbers |
| GrallocLayout.FrameworkYv12Is | gralloc/gralloc.cpp:194-197 | the application's YV12 in numbers |
| GrallocLayout.FrameworkNv21Is | gralloc/gralloc.cpp:198-201 | the application's NV21 in numbers |
| GrallocLayout.PackedYuvIs | gralloc/gralloc.cpp:262-269 | packed 4:2:2 in numbers |
| GrallocLayout.ResolvedIs | gralloc/gralloc.cpp:226-236 | which of three formats each usage gets when it asks for none, and that no other usage gets a picture |
| GrallocLayout.RgbHolds | gralloc/gralloc.cpp:138-171 | a packed picture has stride at least its width, all its samples inside, and two spare rows |
| GrallocLayout.SemiPlanarHolds | gralloc/gralloc.cpp:247-257 | all luma and chroma samples lie in their buffers if and only if the height is not one more than a multiple of 64 |
| GrallocLayout.FrameworkYv12Holds | gralloc/gralloc.cpp:194-197 | the application's YV12 holds its samples if and only if the height is even |
| GrallocLayout.FrameworkNv21Holds | gralloc/gralloc.cpp:198-201 | the application's NV21 holds its samples if and only if both sides are even |
| GrallocLayout.SamplesInside | gralloc/gralloc.cpp:131-307 | for every format and size: stride at least the width, and every sample address inside its buffer if and only if the size is one of those |
| GrallocLayout.SamplesDiffer | gralloc/gralloc.cpp:131-307 | on such sizes no two samples of a picture share a byte |
| Gralloc.AllocRgb | gralloc/gralloc.cpp:131-184 | one buffer of the layout's size or none; unknown formats are refused |
| Gralloc.AllocFrameworkYuv | gralloc/gralloc.cpp:186-214 | the same for the two application formats |
| Gralloc.AllocPlanes | gralloc/gralloc.cpp:276-306 | one buffer a plane, or after any refusal every descriptor closed again, and none closed that is not open |
| Gralloc.AllocYuv | gralloc/gralloc.cpp:216-307 | the same for the planar formats, with the format that the usage asks for |
| Gralloc.Alloc | gralloc/gralloc.cpp:309-352 | for every format, usage and pattern of refusals: succeeds exactly when ION refused nothing; then the open descriptors grew by exactly those of the handle, else by none |
| Gralloc.Free | gralloc/gralloc.cpp:354-374 | closes exactly the handle's descriptors, each once and in order; an invalid handle is refused |
| Gralloc.FreeUndoesAlloc | gralloc/gralloc.cpp:309-374 | freeing what was just allocated gives the old table of descriptors back |
| Gralloc.OutcomeIsNext | gralloc/gralloc.cpp:309-352 | whatever an allocation leaves behind is a step of a run |
| Gralloc.RunConserves | gralloc/gralloc.cpp:309-374 | over every run of allocations and frees the open descriptors are the earlier ones and those of live pictures, each owned once; with no picture left the table is the old one |
| Gralloc.LiveSamplesInside | gralloc/gralloc.cpp:131-374 | in every such state each sample of a live picture of a fitting size is inside the open buffer of its plane |
| JpegMemory.PlanesOf | libcamera2/ExynosJpegEncoderForCamera.cpp:955-958 | a picture's planes end at the first zero size |
| JpegMemory.OneFreed | libcamera2/ExynosJpegEncoderForCamera.cpp:990-998 | what a plane holds is open when it is released, its buffer and its mapping of that buffer with the plane's length, and the others stay accounted for |
| JpegMemory.JpegMem.FreePlane | libcamera2/ExynosJpegEncoderForCamera.cpp:990-998 | one plane is released, its mapping with its full length and its buffer, each once |
| JpegMemory.JpegMem.InitJpegMemory | libcamera2/ExynosJpegEncoderForCamera.cpp:1003-1012 | all planes read as holding nothing, with size 0 and no client |
| JpegMemory.JpegMem.FreeJpegMemory | libcamera2/ExynosJpegEncoderForCamera.cpp:982-1001 | with a client all planes are released, each buffer and mapping once; without one nothing happens |
| JpegMemory.JpegMem.AllocPlane | libcamera2/ExynosJpegEncoderForCamera.cpp:960-976 | one plane gets a buffer of its size and a mapping of it, or all planes are released; when ION answers 0, and only then, a buffer is lost |
| JpegMemory.JpegMem.AllocJpegMemory | libcamera2/ExynosJpegEncoderForCamera.cpp:945-980 | on released planes: a buffer and a mapping for every plane before the first zero size, or everything released again; number 0 is left open and nobody's exactly when ION answered 0 |
| JpegMemory.JpegMem.Session | libcamera2/ExynosJpegEncoderForCamera.cpp:821-836 | after any sequence of calls, with init and alloc on planes that hold nothing, and a last free, exactly what was open before is open, and the buffer numbered 0 exactly when ION has answered 0 |
| JpegMemory.ZeroIsLost | libcamera2/ExynosJpegEncoderForCamera.cpp:962-967 | one plane and a fresh ION that is asked once and answers 0: the planes are released, and buffer 0 is still open |

## Left out

- PreviewState.Ownership: assumes that no window, gralloc or driver call fails and one controller; the failing paths of the preview thread, the lock flags of gralloc, deferred starts and condition variables are not in the runs.
- CropGeometry.CropKeepsTheRatio: ratios are exact fractions, so what the rounding of floats adds is not in the bound; the same holds for all of the module. Sizes are assumed small enough that nothing but the corner overflows.
- CropGeometry.GetCropRect: ratios are exact fractions where the program rounds them in floats; the zoom lies between 0 and the highest zoom of the camera, which is not 0; other values are not modelled.
- CropGeometry.GetRatioSize: ratios are exact fractions where the program rounds them in floats, as in the whole module; negative zooms are not modelled.
- JpegSplice.Encode: the two statuses for an allocation of the segment that yields a null pointer and for a failing `makeExif` are left out; `makeExif` never fails. The thumbnail is what the thumbnail encoder yields, fetched once; the program fetches it again in `makeExif`. The variant that takes the main buffer as thumbnail and the second copy of `makeExif` in libcamera2 are not modelled separately. A JPEG of one byte is excluded, for which the program would move a negative length.
- Gralloc.Alloc: heap masks, flags, alignments and null out-pointers are left out, and so is the unmapping in `gralloc_free`; a failing ION call opens nothing.
- GrallocLayout.SamplesInside: odd sides are taken to have chroma for the last sample too, as the formats' users read them.
- JpegMemory.JpegMem.AllocJpegMemory: the number of planes is a parameter, because MAX_IMAGE_PLANE_NUM is not part of this model; a failing ION call answers -1, as the library does.
- ExifSegment.Writable: maker, model, software and comment are terminated inside their fields, as every place that fills them leaves them (libcamera/ExynosCamera.cpp:3661-3697); strlen running on behind one of these fields is not modelled.
- ExifWriter.StrLenFrom: how far strlen reads behind a full field is left open; any length from 100 on is cut to 100.
- SplitFrame.SplitFrame: up to four bytes behind the frame are taken to be readable, as the code reads them.
- AreaList.BracketsToInts: integers are unbounded, so a number outside the int range, undefined for atoi, is not modelled.
- APEX logarithms, GPS degree splitting, dates and properties: values of the record, given.
- The zero-shutter-lag picture queue: its nodes are never linked, so it has no useful invariant.
- `setParameters`, defaults and per-control setters: long but shallow mappings.
- `RequestManager`, `BayerBufManager` and the tiled converters: declarations only.
- `MetadataConverter` and the static information of the second camera: they depend on a metadata library that is not part of this model.
