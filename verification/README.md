# Push 2 display bridge, device discovery and MIDI status log — a Dafny model

This project models the sequential core of Ableton's "push2-display-with-juce"
demo:

- **Display bridge** (`DisplayBridge`, `display_bridge.dfy`): the flip that
  encodes the JUCE RGB image into a freshly made Push 2 device bitmap. It walks
  the overlap of the two rasters. Each pixel is packed by `SPixelFromRGB` and
  XOR-ed with the mask for its column parity (`0xf3e7` even, `0xffe7` odd). The
  write position skips the unwritten tail of every device row. The bridge's
  `Init` binds it to the display and cannot fail.
- **Demo** (`Push2Demo`, `push2_demo.dfy`): the case-insensitive substring
  match built on `std::search` and `toupper`, and the first-match choice of the
  Push 2 MIDI input in `openMidiDevice`. It also covers the three short-circuiting
  steps of `Demo::Init`, and installing and forwarding to the MIDI callback.
- **Main component** (`MainComponent`, `main_component.dfy`): the constructor's
  success/failure branch and `processMidiInput`. The latter drops messages that
  are not exactly 3 bytes. It formats the rest as `Midi (<ts>) :0xHH - 0xHH - 0xHH`
  and keeps the last four in a FIFO log. The status text is every log entry
  followed by a newline.
- `NBase` (`nbase.dfy`): the `NBase::Result` status value and the effect of
  `RETURN_IF_FAILED_MESSAGE`.
- `Wrappers` (`wrappers.dfy`): `Option`, for a value that may be absent (a null
  pointer, an unset `std::function`, a device that could not be opened).

External collaborators become parameters:
- the pixel packing `SPixelFromRGB` is the function parameter `pack`;
- the fresh device bitmap's unknown contents are `initial`;
- the outcome of `Push2Display::Init` is `displayInit`;
- the list from `MidiInput::getDevices` is `devices`;
- `MidiInput::openDevice` is `openDevice`, which yields a handle or nothing;
- the text the stream writes for a message's timestamp is `timeStampText`.

Facts about the code that the model keeps:
- The entry text has a space before the colon and none after it (`") :"`).
- Every log entry, including the last, is followed by `"\n"`.
- The bridge's `Init` always succeeds.
- The pixel packing is kept abstract: `Push2-Bitmap.h`, which defines its bit
  layout, is not part of this model.

## Model

| member | source | states |
|---|---|---|
| DisplayBridge.XorMask | Source/push2/JuceToPush2DisplayBridge.cpp:73 | the mask is `0xf3e7` for even columns and `0xffe7` for odd ones |
| DisplayBridge.NewBridge | Source/push2/JuceToPush2DisplayBridge.cpp:30-34 | a new bridge is bound to no display and holds the image it was built with |
| DisplayBridge.Init | Source/push2/JuceToPush2DisplayBridge.cpp:39-43 | `Init` always succeeds, binds the bridge to the given display and keeps its image |
| DisplayBridge.CellIndex | Source/push2/JuceToPush2DisplayBridge.cpp:68-84 | the position of column x, row y in the device bitmap is always inside the bitmap, so no write reaches `devWidth * devHeight` |
| DisplayBridge.CellIndexIsStride | Source/push2/JuceToPush2DisplayBridge.cpp:75-84 | column x of row y sits at `y * devWidth + x` in the device bitmap |
| DisplayBridge.EncodePixel | Source/push2/JuceToPush2DisplayBridge.cpp:80-81 | the written value differs from the packed colour by exactly the mask of the column's parity, and XOR-ing it with that mask again gives the packed colour back |
| DisplayBridge.RowStartIsProduct | Source/push2/JuceToPush2DisplayBridge.cpp:75-84 | advancing one device width per row puts row y at `y * devWidth` |
| DisplayBridge.EncodeRow | Source/push2/JuceToPush2DisplayBridge.cpp:77-82 | one row's pass writes the masked packed pixels of columns `0 .. sizex-1` at consecutive positions from the row's start, and touches nothing else |
| DisplayBridge.Flip | Source/push2/JuceToPush2DisplayBridge.cpp:56-84 | needs a bound display. The result has device size. Each cell of the `min(devW, imgW)` by `min(devH, imgH)` overlap at `y*devW + x` holds `pack(r,g,b) XOR mask[x % 2]` of image pixel (x, y). Every other cell keeps its prior value. Unmasking a written cell gives back `pack(r,g,b)` |
| DisplayBridge.EncodingIsUnique | Source/push2/JuceToPush2DisplayBridge.cpp:65-84 | the flip's cell-by-cell description fixes every cell, so two bitmaps meeting it are equal |
| NBase.FailWithMessage | Source/Push2Demo.cpp:48 | a failed step turns into a failure carrying the stage's message; a successful one stays successful |
| Push2Demo.NewDemo | Source/Push2Demo.h:85-90 | a fresh demo has no bound display, no open input, no callback and no running timer |
| Push2Demo.SearchFrom | Source/Push2Demo.cpp:30-36 | `std::search` gives the first offset at which the needle occurs ignoring case, or the end when there is none |
| Push2Demo.SearchFindsOccurrence | Source/Push2Demo.cpp:30-37 | the search stops before the end iff the haystack is non-empty and the needle occurs in it, ignoring case |
| Push2Demo.MatchSubStringNoCase | Source/Push2Demo.cpp:28-38 | the match holds iff the haystack is non-empty and some offset i, with the needle ending inside the haystack, has every `n[k]` equal to `h[i+k]` after ASCII upper-casing |
| Push2Demo.EmptyNeedleMatchesNonEmpty | Source/Push2Demo.cpp:30-37 | an empty needle matches exactly the non-empty haystacks, because the search stops at the start and only an empty haystack's start is its end |
| Push2Demo.SearchFromIgnoresCase | Source/Push2Demo.cpp:33-36 | the search result depends only on the upper-cased characters of both arguments |
| Push2Demo.MatchIgnoresCase | Source/Push2Demo.cpp:33-36 | upper- or lower-casing the haystack or the needle never changes the match |
| Push2Demo.TitleCaseNameMatches | Source/Push2Demo.cpp:79 | "Ableton Push 2" matches the target name |
| Push2Demo.UpperCaseNameMatches | Source/Push2Demo.cpp:79 | "ABLETON PUSH 2" matches the target name |
| Push2Demo.EmbeddedNameMatches | Source/Push2Demo.cpp:79 | "my ableton push 2 controller" matches the target name |
| Push2Demo.NonTargetNameExample | Source/Push2Demo.cpp:79 | "ableton push1" does not match the target name |
| Push2Demo.FindDeviceIndex | Source/Push2Demo.cpp:74-85 | the scan returns the smallest index whose name matches "ableton push 2", with no earlier match, or -1 exactly when no name matches |
| Push2Demo.OpenMidiDevice | Source/Push2Demo.cpp:70-104 | no match gives "Failed to find input midi device for push2". A match whose open yields nothing gives "Failed to open input device". Otherwise it succeeds and keeps the opened input, started. It succeeds iff an input is kept |
| Push2Demo.Init | Source/Push2Demo.cpp:44-65 | the steps run display, bridge, MIDI, and stop at the first failure. A display failure runs neither other step and leaves the demo as it was. Once the display is up, the bridge is bound to it, and all three steps run, since the bridge step cannot fail. The MIDI step's outcome is that of `openMidiDevice` on the given device list: "Failed to find input midi device for push2" when no name matches, "Failed to open input device" when the first match cannot be opened, otherwise success keeping that input, started. A MIDI failure reports "Failed to open midi device". Success needs all three steps, and only success resets elapsed time and starts the 60 Hz timer |
| Push2Demo.SetMidiInputCallback | Source/Push2Demo.cpp:109-112 | the callback is replaced, or cleared by an empty one, and nothing else changes |
| Push2Demo.HandleIncomingMidiMessage | Source/Push2Demo.cpp:117-124 | a message is forwarded unchanged exactly once when a callback is set, and dropped otherwise |
| MainComponent.Hex2 | Source/MainComponent.cpp:93-95 | a byte is written as exactly two upper-case hex digits |
| MainComponent.Hex2RoundTrip | Source/MainComponent.cpp:93-95 | reading the two digits back gives the byte |
| MainComponent.ParseHex2RoundTrip | Source/MainComponent.cpp:93-95 | any two upper-case hex digits are what the byte they denote is written as |
| MainComponent.FormatEntry | Source/MainComponent.cpp:90-95 | an entry starts with `Midi (` and the timestamp text and is 27 characters longer than the timestamp text |
| MainComponent.EntryRoundTrip | Source/MainComponent.cpp:90-95 | an entry can be read back into its timestamp text and three bytes, so it is exactly `Midi (ts) :0xHH - 0xHH - 0xHH` |
| MainComponent.FormatEntryExample | Source/MainComponent.cpp:91-95 | bytes 0x90 0x3C 0x7F at time text "1.5" give `Midi (1.5) :0x90 - 0x3C - 0x7F` |
| MainComponent.EntryHasNoNewline | Source/MainComponent.cpp:91-95 | an entry holds no newline when its timestamp text holds none |
| MainComponent.PushEntry | Source/MainComponent.cpp:97-101 | pushing onto a log of at most four entries leaves the last four of the log plus the new entry |
| MainComponent.LogKeepsLatest | Source/MainComponent.cpp:97-101 | after any sequence of pushes from empty, the log is the last `min(4, n)` entries, oldest first |
| MainComponent.StatusText | Source/MainComponent.cpp:105-110 | the status text of a non-empty log ends with a newline |
| MainComponent.StatusTextLines | Source/MainComponent.cpp:105-110 | splitting the status text into lines gives the log back, so its line count equals the log length |
| MainComponent.ProcessMidiInput | Source/MainComponent.cpp:85-112 | a message of other than 3 raw bytes changes nothing. A 3-byte one appends its entry and, for a log of at most four entries, leaves the last four of the old log plus the entry, so only the oldest is dropped when the log was full. The status becomes the log's text |
| MainComponent.Construct | Source/MainComponent.cpp:63-77 | on success the status is "Push 2 connected", `processMidiInput` is installed as callback, and the component keeps the started demo: its bridge bound to the display over the given image, elapsed time reset and the 60 Hz timer running. On failure the status is the failure's description, which is the display or the MIDI stage's message, and no callback is installed. With the display up, the component connects exactly when the first device whose name matches opens, and then keeps that input, started. When no name matches, or that device cannot be opened, the status is "Failed to open midi device". The log starts empty |
| MainComponent.DeliverMidi | Source/MainComponent.cpp:68-72 | an incoming message reaches `processMidiInput` exactly when the callback is installed |
| MainComponent.DisconnectedIgnoresMidi | Source/MainComponent.cpp:74-77 | when construction failed, incoming messages never change the component |
| MainComponent.ConnectedLogKeepsLatest | Source/MainComponent.cpp:85-112 | once connected, the log after any messages is built from the accepted messages' entries alone. The status shows that log and the demo is untouched |
| MainComponent.ConnectedLogIsBounded | Source/MainComponent.cpp:97-101 | once connected, the log is always the latest at most four accepted entries |

## Left out

- `Demo::drawFrame` and `Demo::timerCallback` (Source/Push2Demo.cpp:129-178) are left out: they are float sine maths and JUCE path drawing. Elapsed time is kept only as a tick count that `Init` resets.
- `GetGraphic` and the JUCE drawing surface are left out: they are an opaque drawing API.
- `Push2DisplayBitmap::SPixelFromRGB` and the device's `kWidth`/`kHeight` are left abstract. `Push2-Bitmap.h` is not part of this model, so they are the parameters `pack`, `devWidth` and `devHeight`.
- DisplayBridge.Flip: leaves out the hand-off to the USB transport (`push2Display_->Flip(g)`) and the assertion that it succeeded. That is driver I/O; the returned bitmap is what gets handed over.
- `Push2Display::Init`, `MidiInput::getDevices`, `openDevice` and `start` are left out as driver I/O. They appear as parameters, and `start` as the `listening` flag.
- NBase.FailWithMessage: keeps only the stage message of a failure. `Macros.h` is not part of this model, so whether the macro also keeps the inner description is not modelled.
- `MessageManagerLock` and cross-thread MIDI delivery (Source/MainComponent.cpp:103) are left out: each `processMidiInput` call is treated as atomic.
- The timestamp's double-to-text conversion is left out as floating point formatting. It is the string `timeStampText`.
- Push2Demo.ToUpper: covers ASCII only. `toupper` on other characters depends on the locale and is treated as the identity.
- Audio callbacks, `paint`, `resized` and logo loading (Source/MainComponent.cpp:115-163) are left out as UI and audio plumbing.
