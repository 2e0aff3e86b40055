# Proofs about lowlat

lowlat streams a desktop at low latency. This project models the parts of it whose correctness is an argument
rather than a glance, and proves what they are for. Each file holds one part.

| file | part |
|---|---|
| `Common.dfy`, `Pictures.dfy` | bytes, options, pictures and the buffers that hold them |
| `Turning.dfy` | turning a picture upright, and the rectangle that turns with it |
| `Reader.dfy`, `Watcher.dfy` | reading the pointer out of its plane, and deciding when it is a new one |
| `Converter.dfy` | the converter's one kept view, keyed by an address |
| `Decoder.dfy` | the sound decoder and a codec that may panic |
| `Frames.dfy`, `Wanted.dfy` | cutting captured sound into frames; handing changed settings to a running capture |
| `Wire.dfy` | the arguments of a Wayland message |
| `View.dfy` | resizing the pointer in the demo client |
| `Present.dfy`, `Pads.dfy` | the demo client's presenting loop and its gamepad sender |
| `Clip.dfy` | splitting a recorded stream at its access units |
| `Colour.dfy` | the reference colour transform and its inverse |
| `RecvRing.dfy`, `RecvStorage.dfy` | a channel's receive ring: as a value, and over its flat storage |
| `Latest.dfy`, `LatestAlone.dfy`, `LatestStarved.dfy`, `Fence.dfy` | the lock-free latest-wins ring, one atomic operation to a step; what each call comes to uninterrupted; which gates starve its producer; the Windows client's gates |

Where the program updates an object or an array in place, the model is a class or a method on arrays proved equal
to a function of the values before; the properties are lemmas about those functions. Where two threads meet
(`Wanted.dfy`, `Latest.dfy`), the model is a state machine and the lemmas are about every interleaving.

## What turned out not to hold

Each has a concrete input or run, and the exact condition under which the promise is kept.

- The two-step read of the pointer plane is the plane's extent except exactly when the first 64 rows hold
  something, row 63 nothing, and a later row something (`TwoStepExactlyWhen`, `SplitPointerIsMisread`).
- A pointer plane inside the size limit whose rows are so far apart that it passes the copy buffer is answered as
  transparent, unless its first rows fit and settle it (`LargePlaneAnsweredExactlyWhen`,
  `LargePlaneReadAsTransparent`).
- A pointer picture that moves inside its plane without changing keeps its old offset
  (`PlaceIsCurrentExactlyWhen`, `MovedDotStaysBehind`).
- With nothing held, a picture whose checksum is zero is never shown (`FirstPictureShownExactlyWhen`,
  `ZeroChecksumIsNeverShown`).
- Settings changed between a capture's opening and its first look at the count are lost until the next change
  (`OpeningSettlesExactlyWhen`, `ChangeWhileOpeningIsLost`): both platform loops read the settings first and note
  the count after. A change between the reads of an opening leaves a mixture that was never asked for
  (`OpeningMixesSettings`), and on Windows a capture on a named device that takes itself to follow the default
  (`OpeningFollowsFromElsewhere`).
- A capture loop that has noticed a change and settled has the muting asked for, but not always the device: exactly
  when it was on it, or opened it, and on Linux opened it by name (`LoopSettlesOnTheSettings`). On Linux a change to
  the default output is read and not acted on until the default itself moves (`DefaultIsNotTakenUp`); on either
  platform a device that does not open is kept off (`UnopenedIsNotTakenUp`); on Windows a capture asked by name for
  the default output it is on leaves it when the default moves (`NamedOutputIsLeft`).
- The demo client takes a pointer's bytes for its picture if their number is the sides' product in 32 bits. That is
  the picture's size exactly when the size fits 32 bits (`GuardIsSizeExactlyWhen`); a 256 by 128 picture passes for
  one of 32769 by 32768 (`ShortPictureIsLetThrough`), and its pixels are then asked of a buffer that does not have
  them.
- A tall pointer can be halved below its target width, a wide one below its target height, and any below a target
  of 2^31 and more, twice which does not fit 32 bits; they are then enlarged again (`TallKeepsWidthExactlyWhen`,
  `TallPointerIsCrushed`, `WideKeepsHeightExactlyWhen`, `TallKeepsHeightExactlyWhen`, `WidePointerIsCrushed`,
  `WideKeepsWidthExactlyWhen`, `HugeTargetCrushes`).
- A pointer's size in the drawn picture is its share of it exactly when the product fits 32 bits, since it is narrowed
  before it is divided (`ScaledExactlyWhen`, `WidePointerIsTakenForAColumn`); and its hot spot, scaled with it, is
  inside the picture exactly when what lay past it comes to more than half a pixel (`HotSpotInsideExactlyWhen`,
  `HotSpotFallsOutside`).
- A gamepad is sent before it is touched in the session it appears in, but to a later session's host exactly when it
  was pending (`NewHostHasStateExactlyWhen`, `UntouchedPadIsNotSentAgain`).
- Cutting a dump that ends inside a record other than the last asked for writes a clip that reads back differently
  (`CutReadsBackExactlyWhen`, `ShortDumpMisreads`).
- A string too long for its length word does not read back (`TextAt`).
- A message sent in fragments of under four bytes is refused by its receiver (`SentIsSlicedExactlyWhen`,
  `ShortFirstFragmentIsRefused`).
- A reader that gives up a gap with nothing to resume from can land inside a message and read what was never sent
  (`LandsOnAStartExactlyWhen`, `MidMessageIsMisread`).
- A receive ring whose depth does not divide 2^32, as 4000 does not, acknowledges a fragment that never came,
  refuses one that is new, and hands out a later message in place of the one expected, at the wrap of the serial
  numbers (`TrustedExactlyWhen`, `WrapFails`, `ShippedDepthIsNotTrusted`, `InOrderExactlyWhen`, `LateComesFirst`).
- The latest-wins ring's producer can be told there is no slot though at no instant was every slot held, if a gate
  found not open while its slot was held is later found open again; four slots and two holds do not prevent it
  (`ReopeningStarvesBegin`). It cannot happen exactly when no gate but zero reopens (`AlwaysASlotExactlyWhen`). The
  Windows client's check reopens none (`FenceReopensNone`) while fewer than 65536 devices follow one another; a gate
  of that many devices before opens again (`TagWrapReopens`).

## Model

| member | source | states |
|---|---|---|
| `Pictures.PackedDetermines` | crates/capture/src/cursor.rs:454-482 | two buffers of one size that hold the same picture are the same bytes, so equality of pictures below is equality of buffers |
| `Turning.Upright` | crates/capture/src/cursor.rs:454-482 | the nested loops fill a buffer that holds the source picture turned, for every turn, size and buffer length, pixels a short buffer lacks being blank |
| `Turning.TurnAfterTurn` | crates/capture/src/cursor.rs:454-482 | turning twice is turning once by the composed turn: Deg90 and Deg270 undo each other, two Deg90 are Deg180 |
| `Turning.NoQuarterIsIdentity` | crates/capture/src/cursor.rs:454-482 | no turn, or an unknown one, leaves the picture |
| `Turning.WholeCircles` | crates/capture/src/cursor.rs:454-482 | any list of turns whose quarters make whole circles leaves any picture as it was |
| `Turning.TurnPermutes` | crates/capture/src/cursor.rs:454-482 | a turned picture has the source's pixels, as a multiset |
| `Turning.FirstCornerGoes` | crates/capture/src/cursor.rs:462-470 | which way the turns go: the source's first pixel is at the top right after Deg90, the bottom left after Deg270, the bottom right after Deg180, and so is a frame's first corner |
| `Turning.PlaceAfterPlace` | crates/capture/src/lib.rs:229-234 | the rectangle's turn before narrowing composes by the same law, with the frame's sides exchanged |
| `Turning.RectAfterRect` | crates/capture/src/lib.rs:216-241 | and so does the narrowed one, for a rectangle within a frame of 31-bit sides, which it stays within |
| `Turning.NarrowingIsExactlyFitting` | crates/capture/src/lib.rs:216-241 | narrowing the turned rectangle changes it exactly when its corner leaves 32 bits |
| `Turning.TurnOfCropIsCropOfTurn` | crates/capture/src/lib.rs:216-241 | turning a crop is cropping the turned frame at the turned rectangle, which stays inside it, and no narrowing happens |
| `PlaneReader.FindExtent` | crates/capture/src/cursor.rs:496-524 | the scan finds nothing exactly for a transparent plane, else a box that holds every opaque pixel and touches one at each side |
| `PlaneReader.BoxIsSmallest` | crates/capture/src/cursor.rs:496-524 | that box lies inside every box holding the opaque pixels |
| `PlaneReader.ExtentIsUnique` | crates/capture/src/cursor.rs:496-524 | a plane has one extent |
| `PlaneReader.TwoStepExactlyWhen` | crates/capture/src/cursor.rs:157-164 | looking at 64 rows first gives the whole plane's extent exactly when the plane is not split at row 63 |
| `PlaneReader.SplitPointerIsMisread` | crates/capture/src/cursor.rs:491-493 | a plane one wide and 66 high on which the two differ |
| `PlaneReader.FoundBoxFits` | crates/capture/src/cursor.rs:205-226 | a box found in rows that were copied is inside both buffers, so the copy skips nothing |
| `PlaneReader.Reader.Take` | crates/capture/src/cursor.rs:191-197 | rows that are there and fit are copied whole and their extent found; otherwise nothing is |
| `PlaneReader.RefusedExactlyWhen` | crates/capture/src/cursor.rs:119-150 | a plane is refused for a side past 256, then for having no memory, then for its mapping's error, and otherwise not |
| `PlaneReader.Reader.Copy` | crates/capture/src/cursor.rs:205-226 | the scratch buffer holds the box row by row at the plane's pitch, red and blue exchanged |
| `PlaneReader.HandedBytes` | crates/capture/src/cursor.rs:205-226 | byte by byte: each pixel handed back has the plane's third, second, first and fourth byte of its place in the box |
| `PlaneReader.Reader.Read` | crates/capture/src/cursor.rs:119-179 | every refusal for its reason and in order; else the two steps' answer for any plane, whether all of it was copied, what the copy buffer then holds, the box's exchanged pixels out of it, which are the plane's if rows fit the pitch, and for a plane that fits the buffer its true extent exactly when it is not split |
| `PlaneReader.LargePlaneAnsweredExactlyWhen` | crates/capture/src/cursor.rs:157-164 | a plane larger than the copy buffer is answered exactly when its first rows fit and settle it, and otherwise as transparent |
| `PlaneReader.LargePlaneReadAsTransparent` | crates/capture/src/cursor.rs:191-197 | a plane 128 high with rows 4096 bytes apart, drawn in row 63, is answered as transparent |
| `PointerWatcher.Watcher.SetTurn` | crates/capture/src/cursor.rs:310-315 | a different turn forgets the held picture, the same one changes nothing |
| `PointerWatcher.Watcher.Read` | crates/capture/src/cursor.rs:323-389 | the new state and the answer are those of the step function, and a look at the pixels is what the reader reads |
| `PointerWatcher.Watcher.TakeUp` | crates/capture/src/cursor.rs:400-421 | an encoding with the checksum held is not new and keeps the old extent; another replaces picture, checksum and extent |
| `PointerWatcher.HeldIsLastNew` | crates/capture/src/cursor.rs:400-421 | in every run what is held is the picture last returned as new since the turn last changed |
| `PointerWatcher.ShownIsLastNew` | crates/capture/src/cursor.rs:323-389 | every pointer returned has that picture's checksum and size, a place from the offset it was adopted at, and is looked at if new |
| `PointerWatcher.ImageIsOfLastNew` | crates/capture/src/cursor.rs:443-445 | in every run whose encodings have distinct checksums the image is that picture's encoding |
| `PointerWatcher.AdoptedImage` | crates/capture/src/cursor.rs:400-421 | a new picture's encoding is the image; one that is not new is written over the front of it all the same |
| `PointerWatcher.PlaceIsCurrentExactlyWhen` | crates/capture/src/lib.rs:157-188 | a place returned after a look is the current one exactly when nothing was new before, the checksum is not the last new one's, or the offset is |
| `PointerWatcher.HeldOrNothing` | crates/capture/src/cursor.rs:400-421 | in every run something is held exactly when something was returned as new since the turn last changed |
| `PointerWatcher.MovedDotStaysBehind` | crates/capture/src/cursor.rs:400-421 | a run in which a dot moves by five and is reported where it was, whatever the encoder and checksum |
| `PointerWatcher.TurnMakesTheNextNew` | crates/capture/src/cursor.rs:310-315 | after a different turn the next pointer returned, however many empty reads later, is new and looked at |
| `PointerWatcher.OneInFourLooks` | crates/capture/src/cursor.rs:338-374 | among any four reads in a row that find a plane one looks at the pixels |
| `PointerWatcher.NextLooksExactlyWhen` | crates/capture/src/cursor.rs:338-374 | after a look and reads that do not look, the next looks exactly when three have found a plane since, or nothing is held |
| `PointerWatcher.AnsweredExactlyWhen` | crates/capture/src/cursor.rs:323-389 | in every run a read is refused exactly for the display's error or a failed look, shows a pointer exactly when there is a plane and any look finds a picture with a name to show, and shows it as new exactly when its name is another than the last new one's |
| `PointerWatcher.CountersCount` | crates/capture/src/cursor.rs:355-374 | in every run the two counters are the looks that read the whole plane and the pictures new in a buffer already seen, saturated |
| `PointerWatcher.FirstPictureShownExactlyWhen` | crates/capture/src/cursor.rs:400-421 | with nothing held a picture found is shown exactly when its checksum is not zero, and otherwise still nothing is held |
| `PointerWatcher.ZeroChecksumIsNeverShown` | crates/capture/src/cursor.rs:400-421 | whatever the encoder, a picture whose checksum is zero is not shown by any number of reads |
| `ViewCache.Converter.Convert` | crates/capture/src/d3d11.rs:293-387 | a conversion runs exactly when the target has the layout and pass, the device takes the work, and a view is kept or can be made; on the texture now at the address named |
| `ViewCache.Converter.Forget` | crates/capture/src/d3d11.rs:389-393 | the converter then keeps no texture alive |
| `ViewCache.RunsOnTheNamedTexture` | crates/capture/src/d3d11.rs:293-311 | in any accounted state a conversion reads the live texture at the address, and that texture stays counted |
| `ViewCache.RanKeepsTheView` | crates/capture/src/d3d11.rs:293-311 | a conversion that ran keeps the view of its address, and the next one there runs on it though no view can be made |
| `ViewCache.RefusedKeepsNone` | crates/capture/src/d3d11.rs:293-311 | one that could make no view keeps none |
| `ViewCache.EveryRunReadsTheNamedTexture` | crates/capture/src/d3d11.rs:242-248 | in every run of creating, sharing, dropping, address reuse, converting and forgetting, the view used is of the texture last created at the address, and at most one texture is kept alive |
| `ViewCache.LiveIsLastCreated` | crates/capture/src/d3d11.rs:242-248 | in every run the texture at a live address is the last one created there |
| `ViewCache.KeepsAtMostOne` | crates/capture/src/d3d11.rs:242-248 | at most one texture lives only because the converter keeps it, and none when nothing is kept |
| `ViewCache.AddressAloneIsNotEnough` | crates/capture/src/d3d11.rs:242-248 | a cache that kept the address without the reference would run on a freed texture's view |
| `SoundDecoder.Decoder.New` | crates/audio/src/decode.rs:57-66 | a decoder is made exactly when the codec can be built, fresh and with empty counters |
| `SoundDecoder.Decoder.Decode` | crates/audio/src/decode.rs:83-96 | state, counters and answer are the step's; the samples written are the payload's or the codec's, and nothing past them is touched |
| `SoundDecoder.Decoder.Decompress` | crates/audio/src/decode.rs:98-150 | the same for a compressed packet: the codec is taken out, and put back unless it panicked |
| `SoundDecoder.TakeSamples` | crates/audio/src/decode.rs:162-179 | a payload is taken exactly when it is whole frames and fits, sample by sample |
| `SoundDecoder.InUseIsFoldSinceLost` | crates/audio/src/decode.rs:98-150 | after every run the codec state next used is the fold, from a fresh codec, of exactly the packets fed since the last panic |
| `SoundDecoder.LostForgetsTheRest` | crates/audio/src/decode.rs:98-150 | after a panic every later answer is what a new decoder would give, so no state a panic passed through is used again |
| `SoundDecoder.UnfedLeavesTheCodec` | crates/audio/src/decode.rs:83-96 | uncompressed and empty packets never touch the codec |
| `SoundDecoder.SameCodecSameReply` | crates/audio/src/decode.rs:98-150 | the answer depends on nothing but the codec state in use and the packet |
| `SoundDecoder.CountersCount` | crates/audio/src/decode.rs:83-96 | the two counters are the number of failures and of panics in the run, saturated |
| `SoundDecoder.SamplesPassThrough` | crates/audio/src/decode.rs:162-179 | samples written as little-endian pairs read back as themselves |
| `SoundDecoder.ToSample` | crates/audio/src/decode.rs:189-192 | a float becomes 32767 times it less its fraction, towards zero, and the range's end past that |
| `SoundDecoder.FedIsAnsweredByTheCodec` | crates/audio/src/decode.rs:98-150 | a compressed packet is answered with the codec's frames, or the room if less; refused with its state kept if it refuses; lost with none kept if it panics |
| `SoundDecoder.WholeExactlyWhen` | crates/audio/src/decode.rs:162-179 | uncompressed bytes are taken exactly when, but for an odd one, they are a number of whole frames that fits |
| `FrameAssembly.Frames.Take` | crates/audio/src/capture.rs:253-274 | the frames handed on, each whole, then the partial, shorter than one, are all the bytes so far in order |
| `FrameAssembly.OneWayToCut` | crates/audio/src/capture.rs:253-274 | there is only one such cutting of a stream |
| `FrameAssembly.Assemble` | crates/audio/src/capture.rs:235-275 | so the frames and the rest depend on the stream alone, not on its fragmentation |
| `SettingsHandOver.CountIsChanges` | crates/audio/src/capture.rs:89-119 | in every interleaving the count is the number of real changes, modulo 2^32, once each has been counted |
| `SettingsHandOver.LoopSettlesOnTheSettings` | crates/audio/src/capture/linux.rs:187-236 | a loop that notes a count before reading settles only knowing the settings in force, with their muting, and on their device exactly when it was on it or opened it, on Linux by name, or followed the default to it |
| `SettingsHandOver.FollowTakes` | crates/audio/src/capture/linux.rs:252-265 | a capture told of another default is on it if it follows the default and the output opens, and otherwise where it was |
| `SettingsHandOver.OpenedLoopIsOnItsOutput` | crates/audio/src/capture/windows.rs:1082-1145 | in every interleaving in which every device opens, a loop that settles is on the device named, or on Windows on the default if it follows that; on Windows, asked for the default, on the default |
| `SettingsHandOver.LinuxFollowsTheDefault` | crates/audio/src/capture/linux.rs:252-265 | in every interleaving on Linux in which every device opens and none is named, a capture on the default, or yet to hear of it, is always so |
| `SettingsHandOver.LoopSettles` | crates/audio/src/capture/linux.rs:187-265 | with every call finished, at most four of the loop's own steps settle it |
| `SettingsHandOver.OpeningSettlesExactlyWhen` | crates/audio/src/capture/linux.rs:143-187 | a loop that opens, and notes its first count after, always settles so exactly when nothing changed and was counted between |
| `SettingsHandOver.DefaultIsNotTakenUp` | crates/audio/src/capture/linux.rs:200-227 | on Linux a capture on a named device and asked for the default settles on the named one |
| `SettingsHandOver.UnopenedIsNotTakenUp` | crates/audio/src/capture/windows.rs:1084-1112 | on either platform a capture whose new device does not open settles on the old one |
| `SettingsHandOver.NamedOutputIsLeft` | crates/audio/src/capture/windows.rs:1084-1145 | on Windows a capture asked by name for the default output it is on settles on another when the default moves |
| `SettingsHandOver.ChangeWhileOpeningIsLost` | crates/audio/src/capture/windows.rs:970-1023 | a change between the two is never noticed, whatever number of polls follow |
| `SettingsHandOver.OpeningMixesSettings` | crates/audio/src/capture/windows.rs:970-1003 | a change between the reads of device and muting leaves the capture on a mixture of two settings, for good |
| `SettingsHandOver.OpeningFollowsFromElsewhere` | crates/audio/src/capture/windows.rs:970-1005 | a change to the default before the last read of an opening leaves it on the named device, taking itself to follow |
| `WireFraming.Message.PutWord` | crates/capture/src/wayland.rs:12-14 | a number is appended in the machine's byte order |
| `WireFraming.Message.PutText` | crates/capture/src/wayland.rs:18-26 | a string is appended as length, bytes, terminator and padding |
| `WireFraming.ArgumentBytes` | crates/capture/src/wayland.rs:12-26 | byte by byte: a number's word; a string's length with its terminator, its bytes, a zero and fewer than four more |
| `WireFraming.SignedBack` | crates/capture/src/wayland.rs:32-34 | a signed number reads back |
| `WireFraming.TextAt` | crates/capture/src/wayland.rs:37-41 | a string reads back at its offset, whatever follows, exactly when its length and terminator fit the length word |
| `WireFraming.ArgumentsReadBack` | crates/capture/src/wayland.rs:12-41 | in any argument list each argument reads back at its computed offset, aligned to four, exactly when it fits |
| `WireFraming.TrailingIsTheLastNumber` | crates/capture/src/wayland.rs:48-50 | the last four bytes are a final number, whatever came before it |
| `PointerView.Halve` | examples/client/view.cc:54-70 | the loop fills a buffer that holds the halved picture, each pixel the rounded mean of four |
| `PointerView.HalvedIsTheMean` | examples/client/view.cc:54-70 | every byte of a halved picture is the mean of the two by two it stands for, to the nearest |
| `PointerView.Bilinear` | examples/client/view.cc:74-99 | the fixed-point loop fills a buffer that holds the resampled picture |
| `PointerView.WalkIsExact` | examples/client/view.cc:74-99 | the 32-bit position never wraps and never leaves the picture |
| `PointerView.BlendBetween` | examples/client/view.cc:74-99 | a blend stays between the values blended and its sum fits 32 bits |
| `PointerView.StepIsNear` | examples/client/view.cc:77-78 | a place in the source is short of the exact one by less than one part in 65536 a step |
| `PointerView.ResampledIsBilinear` | examples/client/view.cc:74-99 | every byte of a resampled picture is, to the nearest, the exact bilinear blend of the four pixels about its place |
| `PointerView.ResampledToItself` | examples/client/view.cc:74-99 | resampling to the same size changes nothing |
| `PointerView.Resize` | examples/client/view.cc:149-167 | the halving loop ends, and then the resampling, with the picture the two make, no index leaving a buffer as long as its sides ask |
| `PointerView.ResizedStaysBetween` | examples/client/view.cc:149-167 | whatever bounds hold of each channel in the host's picture hold in the resized one |
| `PointerView.WideKeepsWidthExactlyWhen` | examples/client/view.cc:149-160 | a picture at least as wide as tall is not halved below the smaller of its own and the target width, for a target of 2^31 and more exactly when it is not halved |
| `PointerView.TallKeepsWidthExactlyWhen` | examples/client/view.cc:149-160 | a taller one is not exactly when its width outlasts the halvings its height asks for |
| `PointerView.TallPointerIsCrushed` | examples/client/view.cc:149-160 | 10 by 40 for a target 9 wide is halved to 2 by 10 |
| `PointerView.HugeTargetCrushes` | examples/client/view.cc:149-160 | 4 by 4 for a target 2^31 wide is halved to a single pixel |
| `PointerView.WideKeepsHeightExactlyWhen` | examples/client/view.cc:149-160 | a picture at least as wide as tall is not halved below the smaller of its own and the target height exactly when its height outlasts the halvings its width asks for |
| `PointerView.TallKeepsHeightExactlyWhen` | examples/client/view.cc:149-160 | a taller one is not exactly when the target height, doubled for each halving the two sides allow, is within its own |
| `PointerView.WidePointerIsCrushed` | examples/client/view.cc:149-160 | 40 by 10 for a target 10 by 10 is halved to 10 by 2 |
| `PointerView.GuardIsSizeExactlyWhen` | examples/client/view.cc:172 | bytes the guard lets through are the picture's size, and hold its last pixel, exactly when that size fits 32 bits |
| `PointerView.ScaledExactlyWhen` | examples/client/view.cc:118-124 | a target side is its share of the drawn picture, to the nearest and at least one, exactly when the product fits 32 bits |
| `PointerView.WidePointerIsTakenForAColumn` | examples/client/view.cc:119 | a pointer 65535 wide in a picture 65538 wide, drawn as it is, is given one column |
| `PointerView.TargetIsNear` | examples/client/view.cc:117-139 | the size aimed at is that share, or within two of it for a small pointer, whose own size or half of it is then taken |
| `PointerView.OwnSizeAtOwnSize` | examples/client/view.cc:117-139 | a picture drawn at its own size, or not yet, has its pointer at its own size |
| `PointerView.HotSpotInsideExactlyWhen` | examples/client/view.cc:142-143 | a hot spot is its share of the new side to the nearest, and inside the new picture exactly when what lay past it comes to more than half a pixel |
| `PointerView.HotSpotFallsOutside` | examples/client/view.cc:142-143 | a hot spot in the last of four columns, drawn one wide, is past that column |
| `PointerView.ShortPictureIsLetThrough` | examples/client/view.cc:172 | sides 32769 by 32768 are taken to ask for the bytes of a 256 by 128 picture, which end inside their first row |
| `PointerView.Pointer.Replace` | examples/client/view.cc:170-180 | a picture of the length its sides' 32-bit product asks for replaces the pointer and clears its target; another changes nothing |
| `PointerView.Pointer.Apply` | examples/client/view.cc:110-168 | a pointer is given out exactly when its target size changes and its picture's size fits 32 bits, native or resized, with its hot spot scaled |
| `PresentingLoop.Presenter.Poll` | examples/client/present.cc:201-254 | a poll acquires, releases the picture shown before, and counts |
| `PresentingLoop.Presenter.Draw` | examples/client/present.cc:260-336 | a draw loads the picture shown at most once and draws it, or clears |
| `PresentingLoop.Presenter.Loop` | examples/client/present.cc:171-377 | the loop over any passes ends in the state of the run, its last picture returned |
| `PresentingLoop.AlwaysConsistent` | examples/client/present.cc:201-336 | in every run acquire is asked with at most one picture out, every draw shows the last acquired, and counters match the log |
| `PresentingLoop.ReleasedOnceUnlessOut` | examples/client/present.cc:201-254 | in a lawful log a picture acquired has been released once, or is still out and has not |
| `PresentingLoop.EveryPictureIsReturnedOnce` | examples/client/present.cc:373-374 | at the end of every run each picture acquired was returned exactly once, and polls are pictures plus repeats |
| `PresentingLoop.PicturesAndSkipsSpan` | examples/client/present.cc:201-254 | over passes with rising sequence numbers and a visible window, pictures plus skips span the sequence numbers |
| `PresentingLoop.HiddenCountsNoSkip` | examples/client/present.cc:212-217 | the first picture after a hidden window, however many passes later, counts no skip, and the next counts as ever |
| `PresentingLoop.DrawLoadsExactlyWhen` | examples/client/present.cc:260-262 | a draw loads the picture exactly when it is not loaded or was a second ago, and otherwise leaves the textures |
| `PadSender.Up` | examples/client/pads.cc:441-444 | an axis is turned over without leaving 16 bits |
| `PadSender.Clean` | examples/client/pads.cc:449-456 | an axis within 2000 of the centre is zero, an end is itself, and any other is the even number at or just below it |
| `PadSender.CleanSettles` | examples/client/pads.cc:449-456 | cleaning an axis twice is cleaning it once, and keeps order |
| `PadSender.Sender.Add` | examples/client/pads.cc:393-418 | a pad takes the first free slot and is pending, unless it is known, alone, unopenable or there is none |
| `PadSender.AddedIsPending` | examples/client/pads.cc:393-418 | so one not known, that opens, is in the first free slot, named by it, pending and announced |
| `PadSender.NotAdded` | examples/client/pads.cc:393-408 | and one known, left alone or that does not open, or any with no slot free, changes nothing |
| `PadSender.Sender.Remove` | examples/client/pads.cc:420-429 | a pad leaves its slot and is announced gone |
| `PadSender.FoundByName` | examples/client/pads.cc:420-437 | a change makes its pad pending and no other; a pad gone frees its slot and is announced |
| `PadSender.Sender.Flush` | examples/client/pads.cc:511-537 | every slot pending is flushed in order as its reading and the send's answer say |
| `PadSender.Sender.Scan` | examples/client/pads.cc:156-210 | each device that is ours and not open takes the first free raw slot and owes its features |
| `PadSender.ScannedFindsAll` | examples/client/pads.cc:156-210 | after a scan every device of ours that opens is open unless every slot is taken, and none that was open has changed |
| `PadSender.Sender.Pump` | examples/client/pads.cc:215-252 | each raw pad sends features first, then its reports; one that is gone is dropped |
| `PadSender.PumpedInOrder` | examples/client/pads.cc:215-252 | a raw pad's pass logs, in a session, its features if owed, every report in order cut to 78 bytes if wireless, and its going; out of one only its going |
| `PadSender.Sender.Poll` | examples/client/pads.cc:547-584 | one pass keeps the tables consistent with the log |
| `PadSender.PassInOrder` | examples/client/pads.cc:547-584 | a pass logs pads that came and went, a session exactly when one has just come up, what the raw pads do, and states only while the window is in front, in that order |
| `PadSender.EveryRunIsLawful` | examples/client/pads.cc:511-584 | in every run, since the session or the replug, no pad has one state accepted twice in a row, and features precede a raw pad's first report |
| `PadSender.NamesAreDistinct` | examples/client/pads.cc:70 | names in use are distinct across both tables and below 256 |
| `PadSender.PendingIsKept` | examples/client/pads.cc:511-537 | a pad stops pending exactly for an unchanged state or a send answered other than not started |
| `PadSender.HostHasStateExactlyWhen` | examples/client/pads.cc:511-537 | with every send accepted, a flush leaves the host with a pad's present state exactly when the pad was pending or the host had been sent it |
| `PadSender.NewHostHasStateExactlyWhen` | examples/client/pads.cc:567-583 | a session just come up has a pad's state after the pass exactly when the pad was pending |
| `PadSender.UntouchedPadIsNotSentAgain` | examples/client/pads.cc:567-583 | a run of three passes in which a pad sent in one session is not sent in the next |
| `ClipFraming.FindStarts` | scripts/decode-clip.py:39-65 | the search finds every delimiter's start, or fails exactly when a start code ends the data |
| `ClipFraming.DelimitersAreAll` | scripts/decode-clip.py:39-47 | the delimiters found are all there are, and do not overlap |
| `ClipFraming.CodeIs` | scripts/decode-clip.py:39-47 | a start code is two zeros and a one |
| `ClipFraming.DelimiterBytes` | scripts/decode-clip.py:39-47 | the first bytes that name a delimiter: type 9 in five low bits, type 35 in the six above the lowest |
| `ClipFraming.EachDelimiterOpensOneUnit` | scripts/decode-clip.py:50-65 | starts strictly increase, each is at its delimiter's start code or at the zero before it exactly when there is one, and each unit holds its own delimiter and no other |
| `ClipFraming.UnitsMakeTheStream` | scripts/decode-clip.py:50-65 | the units from one start on concatenate to the stream from there |
| `ClipFraming.AnnexB` | scripts/decode-clip.py:50-65 | what is written are the units, each after its length, or the error the split gives |
| `ClipFraming.SplitExactlyWhen` | scripts/decode-clip.py:39-65 | the split fails for a start code at the very end exactly when there is one, and for want of delimiters exactly when no start code is followed by one |
| `ClipFraming.ReadUnits` | scripts/decode-clip.py:29-36 | the reading loop gives the units, or the error, of the recursive reader |
| `ClipFraming.SplitReadsBack` | scripts/decode-clip.py:29-65 | the units written read back as themselves and join to the stream from the first delimiter |
| `ClipFraming.ReadsBackExactlyWhen` | scripts/decode-clip.py:29-36 | records read back exactly when all but the last are as long as they say |
| `ClipFraming.ShortEndIsTruncated` | scripts/decode-clip.py:29-36 | whole records followed by one to three bytes do not read |
| `ClipFraming.Cut` | scripts/decode-clip.py:68-77 | the cut writes the first records of the index, or all but its last for a negative count, each with what the dump has of it |
| `ClipFraming.CutInOrder` | scripts/decode-clip.py:68-77 | each record has the dump's bytes from the sum of the lengths before it, as far as the dump goes |
| `ClipFraming.FirstOfIsPrefix` | scripts/decode-clip.py:68-77 | the records cut are a first part of the index of the length the count asks |
| `ClipFraming.CutReadsBackExactlyWhen` | scripts/decode-clip.py:68-77 | that reads back exactly when the dump reaches the end of every record but the last |
| `ClipFraming.ShortDumpMisreads` | scripts/decode-clip.py:68-77 | a dump of one byte cut by lengths 2 and 1 reads back differently |
| `ColourTransform.CodesAtEight` | crates/capture/src/reference.rs:27-52 | codes stay in 16 to 235 and 16 to 240, within half a step of the exact transform, so no clamp fires |
| `ColourTransform.CodesAtTen` | crates/capture/src/reference.rs:60-83 | the same at ten bits |
| `ColourTransform.PrimariesAtEight` | crates/capture/src/reference.rs:27-52 | white, black and the primaries have the codes of Recommendation ITU-R BT.709 |
| `ColourTransform.InverseOfTransform` | crates/capture/examples/convert-probe.rs:372-399 | unrounded, the inverse undoes the transform |
| `ColourTransform.ThereAndBack` | crates/capture/examples/convert-probe.rs:372-399 | through eight-bit codes and back every colour of the unit cube moves by under 1.48, 0.96 and 1.64 parts of 255 |
| `ColourTransform.EightBitThereAndBack` | crates/capture/examples/convert-probe.rs:372-399 | so eight-bit colours move by at most 1, 1 and 2 |
| `ColourTransform.BlueMissesByTwo` | crates/capture/examples/convert-probe.rs:372-399 | and the 2 is reached |
| `ReceiveRing.SerialsCompare` | crates/core/src/seq.rs:11-33 | within half the space serial numbers compare and subtract as what they number does, across the wrap |
| `ReceiveRing.SliceCount` | crates/core/src/message.rs:26-37 | a stream has as many slices as are counted |
| `ReceiveRing.SliceAt` | crates/core/src/message.rs:102-134 | each slice is the bytes from its own offset, or what is left |
| `ReceiveRing.SentIsSlicedExactlyWhen` | crates/core/src/message.rs:68-134 | what is sent is a slicing of length and content as the theorems below ask exactly when fragments have room for the length |
| `ReceiveRing.ShortFirstFragmentIsRefused` | crates/core/src/message.rs:40-46 | a message whose first fragment has not is refused, and stays |
| `ReceiveRing.StoreHolds` | crates/core/src/channel.rs:205-251 | a fragment offered is kept or refused for exactly its reason, no other slot changes, and the ring still holds fragments as sent with its frontier as far as it goes |
| `ReceiveRing.TakeHolds` | crates/core/src/channel.rs:463-493 | a reader at a message gets it, whole and alone, exactly when all of it is below the frontier and there is room |
| `ReceiveRing.EscapeHolds` | crates/core/src/channel.rs:285-327 | giving up a gap moves the reader only forwards, to the last fragment it can resume from, else the last held, and otherwise changes nothing |
| `ReceiveRing.MessagesInOrder` | crates/core/src/channel.rs:134-493 | from wherever the channel starts, in every run of arrivals in any order and number, reads and gaps given up for message starts, what is handed out are messages sent, whole, in order, none twice, and none missing while no gap is given up |
| `ReceiveRing.LandsOnAStartExactlyWhen` | crates/core/src/channel.rs:303-309 | a reader that knows message starts lands on one exactly when it holds one it can resume from, or the last fragment held is one |
| `ReceiveRing.MidMessageIsMisread` | crates/core/src/channel.rs:303-309 | a run of three steps in which the reader is handed a content that was never sent |
| `ReceiveRing.NoneMissing` | crates/core/src/channel.rs:463-493 | in a run that gives up no gap the i-th content handed out is the i-th sent from the start on |
| `ReceiveRing.InOrderExactlyWhen` | crates/core/src/channel.rs:174-493 | so it is in every sound run of a channel that may wrap exactly when the depth divides 2^32 |
| `ReceiveRing.LateComesFirst` | crates/core/src/channel.rs:174-493 | at every other depth a sound run of an arrival and a read hands out a later message for the one expected |
| `ReceiveRing.NextIsReady` | crates/core/src/channel.rs:335-363 | the next message is handed out as soon as every fragment of it is held |
| `ReceiveRing.KeepsApartExactlyWhen` | crates/core/src/channel.rs:174-176 | no two fragments of a window ever share a slot exactly when the depth divides 2^32 |
| `ReceiveRing.TrustedExactlyWhen` | crates/core/src/channel.rs:205-263 | two different fragments of a window are both kept, and the frontier moves exactly for the one expected, wherever the channel starts, exactly when the depth divides 2^32 |
| `ReceiveRing.WrapFails` | crates/core/src/channel.rs:205-263 | at every other depth one fragment stored at the wrap makes a ring refuse another that never came, or acknowledge one that never came and refuse it |
| `ReceiveRing.ShippedDepthIsNotTrusted` | crates/core/src/channel.rs:27 | a depth of 4000 is such a depth |
| `ReceiveStorage.RecvRing.New` | crates/core/src/channel.rs:114-131 | a ring is made exactly when there are slots, they have room and the arena is their size; it starts at zero with what the table says is there |
| `ReceiveStorage.RecvRing.ResetTo` | crates/core/src/channel.rs:134-141 | every slot is freed and all three positions are the start |
| `ReceiveStorage.RecvRing.Offer` | crates/core/src/channel.rs:205-251 | the arena and table after an offer stand for the ring after the store, with the same verdict |
| `ReceiveStorage.RecvRing.Walk` | crates/core/src/channel.rs:254-263 | the frontier loop is the recursive walk |
| `ReceiveStorage.RecvRing.Find` | crates/core/src/channel.rs:335-363 | the loop over fragment lengths locates what the ring's definition does |
| `ReceiveStorage.RecvRing.Release` | crates/core/src/channel.rs:448-456 | freeing slots and moving the reader is releasing in the ring |
| `ReceiveStorage.RecvRing.EscapeStall` | crates/core/src/channel.rs:285-327 | the three loops escape as the ring does |
| `ReceiveStorage.RecvRing.TakeMessage` | crates/core/src/channel.rs:463-493 | the copy loop writes the content taken at the front of the buffer, and nothing else of it |
| `LatestRing.RunInv` | crates/common/src/latest.rs:134-413 | every interleaving keeps the invariants below |
| `LatestRing.WriterAndReaderApart` | crates/common/src/latest.rs:99-106 | in every interleaving the slot being filled is neither in the consumer's hand nor handed out |
| `LatestRing.HeldStays` | crates/common/src/latest.rs:200-241 | no step of the producer changes a held slot |
| `LatestRing.GivenBack` | crates/common/src/latest.rs:365-379 | a slot given back is free and no longer held, whatever the producer does between the look and the exchange |
| `LatestRing.NotHeldIsNotGivenBack` | crates/common/src/latest.rs:365-379 | giving back a slot that is not held changes nothing |
| `LatestRing.ReopeningLetsGo` | crates/common/src/latest.rs:398-413 | in every interleaving a reopening that has passed every slot leaves none published but those the consumer put back meanwhile |
| `LatestRing.HandedAsPublished` | crates/common/src/latest.rs:314-361 | what is handed out is the payload published under the sequence it is handed out under, above the one asked to be passed, and was found open while held through the gate it was published with |
| `LatestRing.HandedOutAscending` | crates/common/src/latest.rs:338-361 | no picture is handed out twice or after a newer one, whatever sequence is asked to be passed |
| `LatestRing.TakesTheNewest` | crates/common/src/latest.rs:290-329 | a slot taken is the newest published, but for any published or found not open since the search began |
| `LatestRing.StealsTheOldest` | crates/common/src/latest.rs:152-196 | a slot stolen is the oldest published, but for any the consumer put back since the search began |
| `LatestRing.TakingFreesOnlyOlder` | crates/common/src/latest.rs:338-352 | a published slot the consumer lets go is older than the one in its hand |
| `LatestRing.RefusedOnlyWhenAllHeld` | crates/common/src/latest.rs:162-183 | when no gate found not open while its slot was held is found open again, begin finds no slot only if at one instant every slot was held |
| `LatestRing.SlotToFill` | crates/common/src/latest.rs:130-134 | so with two slots more than the consumer ever holds it always finds one |
| `LatestRing.FourSlotsAreEnough` | crates/common/src/latest.rs:130-134 | with four slots and two holds, whatever the gates, if none reopens |
| `LatestAlone.BeginAlone` | crates/common/src/latest.rs:134-198 | uninterrupted, begin gives the first free slot, with none free the oldest published, nothing exactly when all are held, and changes no other slot |
| `LatestAlone.PublishAlone` | crates/common/src/latest.rs:202-233 | uninterrupted, a slot set and published is ready with that payload and gate under the next sequence, and nothing else changes |
| `LatestAlone.AbandonFrees` | crates/common/src/latest.rs:236-243 | a slot given back unpublished is free and nothing is published |
| `LatestAlone.ReopenAlone` | crates/common/src/latest.rs:398-413 | uninterrupted, reopening frees exactly the published slots |
| `LatestAlone.AcquireAlone` | crates/common/src/latest.rs:290-361 | uninterrupted, the newest open slot past the sequence given is held and handed out and exactly the older published ones are freed; with none there nothing changes |
| `LatestStarved.ReopeningStarvesBegin` | crates/common/src/latest.rs:330-337 | for any gate but zero, a run of four slots and two holds in which only that gate reopens, gate zero is open to every check, at no instant every slot is held, and begin finds no slot |
| `LatestStarved.AlwaysASlotExactlyWhen` | crates/common/src/latest.rs:130-134 | begin finds a slot in every run of four slots and two holds exactly when no gate but zero may reopen |
| `FenceGates.OpensWhenReached` | crates/client/src/frames/windows.rs:258-299 | a picture's gate is open at its own device exactly once the device's fence has reached it, shut before, and never once the device is gone; gate zero is open to all |
| `FenceGates.NewerDeviceIsAsked` | crates/client/src/frames/windows.rs:279-301 | a gate of a device newer than the one kept, and the session's, is judged by that device's fence |
| `FenceGates.OlderDeviceIsNot` | crates/client/src/frames/windows.rs:279-301 | a gate of an older device is never open and does not change which device is asked |
| `FenceGates.FenceReopensNone` | crates/client/src/frames/windows.rs:267-320 | in every run whose checks are the client's, over devices that follow one another and fences that advance, no gate reopens while under 65536 devices are told apart |
| `FenceGates.FenceClientFindsASlot` | crates/client/src/frames/windows.rs:267-320 | so with four slots and two holds begin always finds a slot |
| `FenceGates.TagWrapReopens` | crates/client/src/frames/windows.rs:155-175 | a gate open, then refused as its device is left, is open again 65536 devices later |

## Left out

- PlaneReader: the display's ioctls and the mapping of the plane; the mapped bytes are an input.
- PointerWatcher: the picture encoder and its checksum are any two functions; `ImageIsOfLastNew` asks for distinct checksums in so many words.
- PointerWatcher.Watcher.TakeUp: the encoder does not fail; the pictures it is given are not empty and within the size its buffer is made for.
- PointerWatcher.PlaceIsCurrentExactlyWhen: asks that no picture is encoded as nothing, and is about planes inside the reader's limit and positions a plane away from the end of 32 bits, where the sum does not saturate.
- ViewCache: the shaders and device calls of a conversion, which change no field.
- SoundDecoder: the codec itself is any function that answers, rejects or panics; floating point is modelled by reals.
- SettingsHandOver: fewer than 2^32 changes between two polls are taken to happen, since the count is 32 bits; an output lost and taken again, a stream the sound server moves by itself, and a name the server substitutes are not modelled; a capture that does not open at all ends.
- WireFraming: the message header and the sockets.
- PointerView.Pointer.Apply: of pixels asked of a buffer shorter than its sides nothing is said but that they are.
- PointerView.Resize: is about a buffer as long as its sides ask; `Apply` calls it for no other.
- PresentingLoop: the graphics calls, pacing and the per-second figures; counters are unbounded.
- PadSender: polling the operating system's pads; readings, devices and answers of the library are inputs.
- ClipFraming: the files and the decoder the script starts.
- ColourTransform: rounding of floating point; the walk over whole planes in the probe is not modelled, only its formula.
- ReceiveRing.MessagesInOrder: asks that fragments arrive within half the serial numbers of the reader, that the depth divides 2^32 or no serial number has wrapped, and that a reader that gives up a gap and moves lands where a message begins; `InOrderExactlyWhen` and `LandsOnAStartExactlyWhen` say when the last two hold.
- ReceiveRing: looking ahead at, counting and skipping whole messages, and the counters of refused and late fragments.
- ReceiveStorage.RecvRing.New: a ring over a table lent before to one with larger slots, whose lengths pass this one's, is made; what it then does is not said.
- LatestRing: memory is sequentially consistent, where the source orders its accesses with acquire and release; sequences do not wrap at 62 bits; sleeping, waking and closing, and which shut gate to wait for, are not modelled.
- FenceGates: the waiting on a fence, and the textures behind a slot.
- The send side of a channel beyond its slicing, the session protocol, traversal, encryption and the video and audio encoders.
- The C# client, the demo's signalling, sound and configuration, and the build and fetch scripts.
