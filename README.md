# soluna: gamepad slots and RGBA8 image helpers, in Dafny

This project models two C files of soluna, a Lua game runtime, and proves properties of
the model.

- **src/gamepad.c.** A producer (`device_update`) polls up to four controllers into a
  process-wide slot table. Each consumer view (`update`) compares one slot with what it
  last reported and writes the differences into a Lua record. The record's fields are
  `connect`, `LT`, `RT`, `LS_X`, `LS_Y`, `RS_X`, `RS_Y` and the 16 button names.
  - `gamepad.dfy` holds the slot table as a class over arrays, the per-slot poll, and the
    consumer view as a class whose `Update` method walks the button mask bit by bit, as
    the C loop does.
  - `Sync` is a pure function describing what one update writes. The lemmas about it
    cover:
    - which fields are written on a connect edge, on a disconnect edge and in steady
      state;
    - idempotence;
    - that the view tracks the slot;
    - that the host record stays in step with the view.
  - `gamepad_linux.dfy` models the Linux backend's fold of `struct js_event` records into
    its static cache, and the read loop around it.
    - The cache is one function-level `static` shared by all four device indices
      (src/gamepad.c:202-207), so `LinuxBackend` holds a single cache.
    - With two pads plugged in, each slot's reading is the fold of both devices' events,
      in the order they are polled.
- **src/image.c.** Helpers on RGBA8 pixel buffers, where a pixel is opaque when its alpha
  byte is non-zero.
  - `image_rect.dfy`:
    - `struct rect` and `rect_init`;
    - the four trimming scans `remove_top`, `remove_bottom`, `remove_left` and
      `remove_right`, as methods of a `Rect` class with the source's nested loops;
    - `image_crop`.
  - `image_canvas.dfy`:
    - canvases on a byte buffer;
    - `image_canvas`;
    - the size check of `get_image_buffer`;
    - `limage_tocanvas`;
    - `canvas_blit`, whose row loop copies into a destination `array` one `memcpy` at a
      time.
  - `image_pixels.dfy`:
    - the input conversion of `image_new`;
    - the pixel loop of `image_load_alpha`;
    - the 16-bit lane packing of `image_makeindex`.
  - `image_bytes.dfy` holds the byte type and two row-arithmetic facts.
  - `wrappers.dfy` holds `Option` and `Result`.

How imperative code is specified:

- Each method is tied to a function of its inputs or of its old state, for example
  `RemoveTop` returns `FirstOpaqueRow(img, old(Value()))`, and `CopyLoop` leaves
  `CopyRows(old(buf[..]), ...)`.
- The source's promises are then lemmas about those functions.
- Integer widths are written out where the source relies on them:
  - `uint32_t` packet counters wrap;
  - `int16_t` and `uint8_t` conversions are modular;
  - the `uint64_t` union of `image_makeindex` is reinterpreted as a signed 64-bit integer.

## Model

| member | source | states |
|---|---|---|
| Gamepad.NameInjective | src/gamepad.c:8-25 | distinct record fields (the six axes, `connect` and the 16 buttons in `gamepad_buttons` order) are stored under distinct Lua keys |
| Gamepad.LastWriteSingle | src/gamepad.c:291 | one `lua_setfield` sets its own key and no other |
| Gamepad.LastWriteConcat | src/gamepad.c:291-375 | of two batches of `lua_setfield` writes the later batch wins for every key it writes |
| Gamepad.ApplyAt | src/gamepad.c:291-375 | after a series of `lua_setfield` writes a field holds its last written value, and a field never written keeps its old value (or stays absent) |
| Gamepad.PollSlot | src/gamepad.c:414-433 | a failed poll marks the slot disconnected, keeps `packet[i]`, leaves whatever the backend wrote in `state[i]`, and raises "changed" iff the slot was connected; a successful poll marks it connected, stores the reading and its packet, and raises "changed" iff it was disconnected or the packet differs |
| Gamepad.PollChangedIffObservable | src/gamepad.c:416-432 | "changed" is raised exactly when the slot's connected flag or packet number changes |
| Gamepad.PollRepeatIsQuiet | src/gamepad.c:424-432 | a second successful poll returning the same reading raises nothing and leaves the slot unchanged |
| Gamepad.SlotTable.constructor | src/gamepad.c:258-263 | the static table starts zeroed: every slot disconnected with packet 0 and the zero reading |
| Gamepad.SlotTable.Init | src/gamepad.c:392-401 | `device_init` zeroes the whole table, so every slot is disconnected |
| Gamepad.SlotTable.Deinit | src/gamepad.c:403-407 | `device_deinit` zeroes the whole table |
| Gamepad.SlotTable.DeviceUpdate | src/gamepad.c:409-438 | every slot becomes what one poll of it gives, independently of the others, and the result is the OR of the four per-slot "changed" flags |
| Gamepad.ButtonWritesLast | src/gamepad.c:302-307 | the edge loop writes button i as bit i of the mask, for every one of the 16 buttons and nothing else |
| Gamepad.ButtonDiffLast | src/gamepad.c:359-372 | the steady loop writes exactly the buttons whose bit differs between the view and the slot, each with its new bit |
| Gamepad.ButtonDiffSame | src/gamepad.c:361 | with equal masks no button is written, which is why the loop may be skipped |
| Gamepad.AxisWritesLast | src/gamepad.c:291-300 | the numeric writes of an edge store the reading's value for each listed field and write nothing else |
| Gamepad.AxisDiffSame | src/gamepad.c:329-358 | when the listed numeric fields agree with the view, none of them is written |
| Gamepad.AxisDiffLast | src/gamepad.c:329-358 | the steady update writes exactly the numeric fields whose value differs from the view, each with the slot's value |
| Gamepad.AxesAreTheNumericFields | src/gamepad.c:291-301 | the six numeric fields are LT, RT, LS_X, LS_Y, RS_X, RS_Y, and the edge writes all of them but RS_Y |
| Gamepad.SyncWith | src/gamepad.c:287-378 | models the three branches of `lgamepad_update` (edge, steady, still disconnected) for a given list of edge fields; whatever the branch, the view records the table's flag and `connect` is the last write |
| Gamepad.Sync | src/gamepad.c:287-378 | models `lgamepad_update` as written (edge fields LT, RT, LS_X, LS_Y, RS_X); the view records the flag and `connect` ends up holding it |
| Gamepad.SyncFixed | src/gamepad.c:288-325 | the corrected update with RS_Y on both edges: it leaves the same view as the source, and every edge writes RS_Y from the reading (zero on a disconnect) |
| Gamepad.SyncFixedOnlyRsY | src/gamepad.c:300-325 | the corrected update differs from the source in the RS_Y write only: every other field gets the same last write |
| Gamepad.SyncReportsConnect | src/gamepad.c:374-378 | every update writes `connect` last with the table's connected flag, and the view records that flag |
| Gamepad.SyncStillDisconnected | src/gamepad.c:286-378 | when slot and view are both disconnected, `connect = false` is the only write and the view is unchanged |
| Gamepad.EdgeWritesLast | src/gamepad.c:288-325 | an edge writes `connect`, each of its numeric fields from the reading, and all 16 buttons from its bits, and nothing else |
| Gamepad.SyncConnectEdge | src/gamepad.c:288-307 | on a connect edge the view takes the slot's reading, and LT, RT, LS_X, LS_Y, RS_X and every button are written from it, while RS_Y is not written |
| Gamepad.SyncDisconnectEdge | src/gamepad.c:308-325 | on a disconnect edge the view is zeroed, 0 is written to LT, RT, LS_X, LS_Y and RS_X, false to all 16 buttons, and RS_Y is not written |
| Gamepad.SteadyWritesLast | src/gamepad.c:326-372 | a steady update writes `connect` and each numeric field and button whose value differs from the view, and nothing else |
| Gamepad.ReadingSteady | src/gamepad.c:326-372 | after a steady update the view shows the slot's reading in every field |
| Gamepad.SyncSteady | src/gamepad.c:326-372 | while connected, the writes are exactly the fields that differ, and the view afterwards equals the slot's reading in every reported field |
| Gamepad.SyncKeepsViewInv | src/gamepad.c:287-376 | an update (as written or fixed) keeps the invariant that a disconnected view holds the zero reading |
| Gamepad.SyncIdempotent | src/gamepad.c:287-378 | updating twice against an unchanged slot writes only `connect` the second time and leaves the view as the first update left it |
| Gamepad.SyncViewTracksSlot | src/gamepad.c:287-376 | after an update the view reports the slot: its reading when connected, zero when disconnected |
| Gamepad.SyncViewsConverge | src/gamepad.c:287-376 | two views updated against the same slot agree on everything they report, whatever they held before |
| Gamepad.SyncWithKeepsField | src/gamepad.c:287-376 | one field of the host record goes on showing the view across one update, given it did before |
| Gamepad.SyncWithKeepsRecord | src/gamepad.c:287-376 | for any list of numeric fields written on the edges, a host record that shows the view (outside a set of excepted fields that holds every numeric field missing from that list) goes on showing it after one update |
| Gamepad.SyncKeepsRecordButRsY | src/gamepad.c:287-376 | as written, the host record stays in step with the view in every field except RS_Y |
| Gamepad.SyncConnectLeavesStaleRsY | src/gamepad.c:300-302 | as written, a connect edge leaves the record's old RS_Y in place, and a following steady update does not repair it, though the view holds the new value |
| Gamepad.SyncFixedKeepsRecord | src/gamepad.c:288-325 | with RS_Y written on both edges the host record always shows exactly the slot |
| Gamepad.ReportButtons | src/gamepad.c:302-307 | the shifting loop writes button i from bit i of the mask, in order, for all 16 buttons |
| Gamepad.ReportConnect | src/gamepad.c:290-307 | the connect-edge writes are LT, RT, LS_X, LS_Y, RS_X and the buttons from the reading (RS_Y pushed, not stored) |
| Gamepad.ReportDisconnect | src/gamepad.c:310-324 | the disconnect-edge writes are 0 to the five numeric fields and false to every button |
| Gamepad.ReportAxisChanges | src/gamepad.c:328-358 | the numeric fields that differ are written and copied into the view, which otherwise keeps its fields |
| Gamepad.ReportButtonChanges | src/gamepad.c:359-372 | the two masks are shifted out together and exactly the differing bits are written |
| Gamepad.ReportChanges | src/gamepad.c:326-372 | the steady branch writes what `SteadyWrites` lists and leaves the view `Steady` |
| Gamepad.Report | src/gamepad.c:287-376 | the diff of one update is `Sync` of the slot and the view |
| Gamepad.GamepadView.constructor | src/gamepad.c:381-390 | the `update` closure's upvalue starts zeroed: four disconnected views |
| Gamepad.GamepadView.Update | src/gamepad.c:270-379 | the index defaults to 0 (`luaL_optinteger(L, 2, 0)`); one outside 0..3 is an error that changes nothing; otherwise the reply is the `Sync` writes and the table's connected flag, only that slot's view changes, and every view keeps the invariant that a disconnected view holds the zero reading |
| GamepadLinux.ToI16 | src/gamepad.c:223 | storing an `int` into an `int16_t` keeps it modulo 2^16 and keeps any value already in range |
| GamepadLinux.PressedAfterSet | src/gamepad.c:217 | `mask \| (1 << n)` presses button n and keeps every other bit |
| GamepadLinux.PressedAfterClear | src/gamepad.c:219 | `mask & ~(1 << n)` releases button n and keeps every other bit |
| GamepadLinux.ButtonUpdateAt | src/gamepad.c:216-220 | a button event sets bit n when its value is non-zero, clears it otherwise, and leaves every other button |
| GamepadLinux.EventCountsPacket | src/gamepad.c:212 | every event advances the packet counter by one modulo 2^32 |
| GamepadLinux.ButtonEventSetsThatBit | src/gamepad.c:214-221 | a button event with number < 16 changes exactly that bit of the mask and no other field but the packet |
| GamepadLinux.AxisEventStoresField | src/gamepad.c:222-231 | axis 0 and 3 store the value, 1 and 4 its negation, 2 and 5 the trigger level, each into its one field |
| GamepadLinux.NegatedValue | src/gamepad.c:226 | the stored negation is exact except for -32768, which stays -32768 |
| GamepadLinux.TriggerLevelRange | src/gamepad.c:227 | `(value + 32768) >> 8` is the top byte of the shifted value, lies in 0..255, is monotone, and maps -32768 to 0 and 32767 to 255 |
| GamepadLinux.OtherEventsOnlyCount | src/gamepad.c:211-232 | events with neither flag, button numbers 16 and up, and axis numbers above 5 only advance the packet counter |
| GamepadLinux.ApplyEvent | src/gamepad.c:212-232 | models one pass of the event loop; every event advances the packet counter by one modulo 2^32, and an event without the button flag never moves a button |
| GamepadLinux.Fold | src/gamepad.c:211-233 | models the `read` loop over a poll's events in order; a poll that reads n events advances the counter by n modulo 2^32 |
| GamepadLinux.FoldConcat | src/gamepad.c:211-233 | folding two batches one after the other is folding their concatenation, so the cache carries over between polls |
| GamepadLinux.LinuxBackend.constructor | src/gamepad.c:202-207 | the static cache starts zeroed |
| GamepadLinux.LinuxBackend.GetState | src/gamepad.c:192-247 | a device that cannot be opened fails and leaves the cache; otherwise the cache becomes the fold of the events read, and the slot's reading is the cache |
| ImageRect.RectInit | src/image.c:135-164 | a clipped rect has stride `4 * x` and is at least one pixel wide and high |
| ImageRect.RectInitIsIntersection | src/image.c:136-163 | `rect_init` succeeds iff the request overlaps the image; the rect then starts at (max(dx,0), max(dy,0)) with offset `4x·dy' + 4dx'` and ends at (min(dx+w,x), min(dy+h,y)) |
| ImageRect.RectInitFits | src/image.c:158-161 | every pixel of a clipped rect lies inside the `4·x·y` bytes of the image |
| ImageRect.Rect.Init | src/image.c:135-164 | the fields hold the clipped rect on success, and are untouched on failure |
| ImageRect.Rect.constructor | src/image.c:262 | `struct rect r;` is an uninitialised local; the constructor's value is a placeholder that nothing reads before `rect_init` |
| ImageRect.LeadingSpec | src/image.c:210-215 | the leading count is the number of transparent pixels before the row's first opaque one, or the width |
| ImageRect.TrailingSpec | src/image.c:233-238 | the trailing count is the number of transparent pixels after the row's last opaque one, or the width |
| ImageRect.RowOpaqueSpec | src/image.c:172-177 | a row counts as opaque exactly when one of its pixels has a non-zero alpha byte |
| ImageRect.FirstOpaqueRowSpec | src/image.c:170-182 | `remove_top` answers the first row holding an opaque pixel, or `line` when there is none, and every row above it is transparent |
| ImageRect.BottomFromSpec | src/image.c:188-200 | `remove_bottom` answers the number of transparent rows at the bottom, looking at rows `line-1` down to 1 only, or `line` when those are all transparent |
| ImageRect.MinLeadingSpec | src/image.c:207-223 | `min_left` is the smallest leading count over the rows, and is attained by some row unless it is the width |
| ImageRect.MinTrailingSpec | src/image.c:230-246 | `min_right` is the smallest trailing count over the rows, and is attained by some row unless it is the width |
| ImageRect.FirstOpaqueRow | src/image.c:166-183 | models `remove_top`'s answer, which lies in 0..line |
| ImageRect.BottomFrom | src/image.c:185-201 | models `remove_bottom`'s answer from step y on; it is `line`, or a count from y to `line - 2`, so the row the scan stops on is never row 0 |
| ImageRect.MinLeading | src/image.c:203-224 | models `min_left` after the first n rows, which lies in 0..width |
| ImageRect.MinTrailing | src/image.c:226-247 | models `min_right` after the first n rows, which lies in 0..width |
| ImageRect.MinLeadingStaysZero | src/image.c:216-217 | once `min_left` is 0 it stays 0, so returning early gives the same answer |
| ImageRect.MinTrailingStaysZero | src/image.c:239-240 | once `min_right` is 0 it stays 0, so returning early gives the same answer |
| ImageRect.DropTopSpec | src/image.c:174-175 | after `remove_top` the rect still lies in the image, and its row r is row r + top of the rect before |
| ImageRect.DropBottomFits | src/image.c:193 | after `remove_bottom` the rect still lies in the image |
| ImageRect.Rect.RemoveTop | src/image.c:166-183 | returns the first opaque row (or `line`) and drops that many rows from the top |
| ImageRect.Rect.RemoveBottom | src/image.c:185-201 | returns the bottom scan's answer and drops that many rows from the bottom, leaving the rect unchanged when no row above row 0 is opaque |
| ImageRect.Rect.RemoveLeft | src/image.c:203-224 | returns the smallest leading transparent count over all rows, without changing the rect |
| ImageRect.Rect.RemoveRight | src/image.c:226-247 | returns the smallest trailing transparent count over all rows, without changing the rect |
| ImageRect.ScanLeading | src/image.c:210-215 | the inner loop stops at the first opaque pixel or at the bound, so it returns min(leading count, bound) |
| ImageRect.ScanTrailing | src/image.c:233-238 | the backward inner loop returns min(trailing count, bound) |
| ImageRect.CropRectSound | src/image.c:268-278 | the crop never cuts off an opaque pixel: each lies inside the returned box, and a box is returned whenever the clipped rect holds one and is no taller than requested |
| ImageRect.CropRectNonEmpty | src/image.c:268-278 | a clipped rect holding an opaque pixel crops to a box at least one pixel wide and high |
| ImageRect.RequestedHeightBound | src/image.c:259-269 | the clipped height never exceeds the requested `h` that `top` is compared with |
| ImageRect.TransparentRow | src/image.c:208-246 | a transparent row has leading and trailing counts equal to the width |
| ImageRect.ImageCrop | src/image.c:249-281 | `image_crop` is an error unless `x·y·4` is the buffer size; it returns nothing when `rect_init` fails or `top == h`, and otherwise (left, top, width - (left + right), line) |
| ImageRect.Crop | src/image.c:249-281 | models `image_crop` from its arguments; it fails exactly when `x·y·4` is not the buffer size, and a returned box starts at a non-negative column, ends by column x, and starts and extends within y rows |
| ImageRect.CropClip | src/image.c:262-278 | models the part from `rect_init` on; a box is returned only when `rect_init` succeeds, lies within the x by y image, and is no taller than the requested `h` |
| ImageRect.CropRect | src/image.c:268-278 | models the four scans on the clipped rect; no box exactly when `remove_top` answers the requested `h`, and a box's columns and height stay within the rect |
| ImageRect.ClipAndTrim | src/image.c:257-278 | from `rect_init` on, the method computes `CropClip` |
| ImageRect.TrimRect | src/image.c:268-278 | the four scans on the clipped rect compute `CropRect` |
| ImageRect.CropNegativeWidth | src/image.c:268-277 | as written, a fully transparent rect shorter than the requested height is cropped to a box of width `-x` |
| ImageRect.CropKeepsTransparentBottom | src/image.c:189 | as written, an image whose only opaque row is row 0 keeps its transparent last row in the box |
| ImageRect.BottomFixedFromSpec | src/image.c:185-201 | the bottom scan that reaches row 0 answers the number of transparent bottom rows, stopping on an opaque row |
| ImageRect.TopTrimmed | src/image.c:166-183 | the rect after `remove_top` lies in the image and keeps the pixels of the rows below the first opaque one |
| ImageRect.CropFixedNone | src/image.c:264-278 | the corrected crop returns no box exactly for a fully transparent rect |
| ImageRect.CropFixedBottom | src/image.c:185-201 | after an opaque row was found, the corrected bottom scan stops on an opaque row |
| ImageRect.CropFixedSound | src/image.c:264-278 | the corrected crop returns a box whenever the rect holds an opaque pixel, and every opaque pixel lies inside it |
| ImageRect.CropFixedRows | src/image.c:264-278 | the corrected box is at least one pixel wide and high, lies in the rect, and its top and bottom rows are opaque |
| ImageRect.LeftEdge | src/image.c:203-224 | unless it is the width, `min_left` is the column of some opaque pixel |
| ImageRect.RightEdge | src/image.c:226-247 | unless it is the width, `min_right` counts the columns after some opaque pixel |
| ImageRect.CropFixedLeft | src/image.c:272-277 | the left column of the corrected box holds an opaque pixel |
| ImageRect.CropFixedRight | src/image.c:273-277 | the right column of the corrected box holds an opaque pixel |
| ImageCanvas.SubCanvasSpec | src/image.c:416-444 | a sub-rectangle canvas is accepted iff the value is a buffer, the rectangle lies in the width by height image and, for a string, `4·width·(y+h)` lies in 0..size; the canvas then starts at byte `4·width·y + 4·x` with stride `4·width` and the sub-rectangle's size |
| ImageCanvas.MakeCanvas | src/image.c:405-446 | models `image_canvas`; a non-buffer is refused with "Need buffer", the canvas keeps the buffer's kind, and a whole-buffer canvas starts at offset 0 with the given width and height and, without a stride argument, stride `4·width` |
| ImageCanvas.SubCanvasFits | src/image.c:433-444 | an accepted sub-rectangle string canvas lies inside its string |
| ImageCanvas.NarrowStrideAccepted | src/image.c:416-417 | as written, a 4-byte string is accepted as a 10 by 1 canvas of stride 4, whose row needs 40 bytes |
| ImageCanvas.MakeCanvasFixedFits | src/image.c:433-437 | with the last row checked against the string, every accepted string canvas lies inside its string, and the fixed check accepts only what the original accepts |
| ImageCanvas.GetImageBuffer | src/image.c:283-306 | an accepted image has `width·height·4` equal to its raw length |
| ImageCanvas.GetImageBufferSpec | src/image.c:287-302 | `get_image_buffer` accepts exactly an image userdata with numeric `.width` and `.height` whose product times 4 is its raw length |
| ImageCanvas.ToCanvasFits | src/image.c:328-341 | the canvas of an image covers its buffer exactly, with stride `4·width` |
| ImageCanvas.ToCanvas | src/image.c:328-341 | models `limage_tocanvas`; it succeeds exactly when `get_image_buffer` does, giving a full-userdata canvas at offset 0 |
| ImageCanvas.BlitClipIsOverlap | src/image.c:482-503 | the clip exists iff the source placed at (x, y) overlaps the destination; it is then that overlap, and the source pixels copied are the ones placed there |
| ImageCanvas.BlitClipInside | src/image.c:482-503 | the clipped rectangle lies inside both canvases |
| ImageCanvas.BlitClip | src/image.c:480-503 | models the clipping statements; a clip is at least one pixel wide and high and lies inside the destination |
| ImageCanvas.Blit | src/image.c:473-515 | models `canvas_blit` on the destination bytes; it fails exactly for a string destination and keeps the buffer's length |
| ImageCanvas.ClipFor | src/image.c:480-503 | the clipping statements compute `BlitClip` |
| ImageCanvas.CopyRowsInside | src/image.c:506-512 | each byte of each copied row holds the source byte it was copied from |
| ImageCanvas.CopyRowsOutside | src/image.c:506-512 | bytes outside the copied rows keep their value |
| ImageCanvas.BlitCopies | src/image.c:505-512 | inside the clipped rectangle, destination pixel (x + j, y + i) holds source pixel (sx + j, sy + i) |
| ImageCanvas.BlitKeepsOutside | src/image.c:505-512 | destination bytes outside the clipped rows are unchanged |
| ImageCanvas.BlitNoCopy | src/image.c:475-503 | a string destination is refused, and a placement that misses the destination changes nothing |
| ImageCanvas.MemCopy | src/image.c:509 | `memcpy` replaces exactly the n bytes from `pos` with the source bytes |
| ImageCanvas.CopyLoop | src/image.c:505-512 | the row loop leaves the destination as `CopyRows` describes |
| ImageCanvas.CanvasBlit | src/image.c:473-515 | `canvas_blit` refuses a string destination unchanged, and otherwise leaves the destination buffer as `Blit` describes |
| ImagePixels.NewPixelsSpec | src/image.c:364-382 | no data gives all zero bytes, `w·h·4` bytes are copied as they are, `w·h` bytes put byte p into all four channels of pixel p, and any other length is refused |
| ImagePixels.NewPixels | src/image.c:364-382 | models the conversion of `image_new`'s data argument; an accepted result has `w·h·4` bytes |
| ImagePixels.SpreadPlane | src/image.c:372-380 | every channel of a grey image made from one byte per pixel gives those bytes back |
| ImagePixels.NewImage | src/image.c:343-382 | the new pixel buffer is fresh and holds what `NewPixels` gives, or the call fails with "Invalid image data size" |
| ImagePixels.SpreadInto | src/image.c:371-380 | the nested loops leave the grey spread of the data |
| ImagePixels.NewImageIsImage | src/image.c:283-306 | the image `image_new` makes passes the size check of `get_image_buffer` under the width and height it records |
| ImagePixels.AlphaMaskPixel | src/image.c:97-105 | after `image_load_alpha` every pixel is (0, 0, 0, 255 - red) |
| ImagePixels.AlphaMaskPlane | src/image.c:97-105 | the alpha channel of the mask is the old red channel inverted |
| ImagePixels.GreyMask | src/image.c:97-105 | the mask of a grey image is its grey levels inverted |
| ImagePixels.AlphaMask | src/image.c:95-106 | models the picture `image_load_alpha` leaves, which has the length of the decoded one |
| ImagePixels.LoadAlpha | src/image.c:95-106 | the pixel loops rewrite the picture in place to `AlphaMask` of it |
| ImagePixels.MaskPixel | src/image.c:99-103 | one pixel takes alpha from the old red, then red, green and blue are cleared, and no other byte changes |
| ImagePixels.UnpackPack | src/image.c:528-533 | reading the 64-bit union back gives each 16-bit lane |
| ImagePixels.ToInt64 | src/image.c:535 | the union's `uint64_t` is pushed as the signed 64-bit integer congruent to it modulo 2^64 |
| ImagePixels.MakeIndexLanes | src/image.c:517-537 | the index holds x, y, w and h modulo 2^16 as four 16-bit lanes, x lowest |
| ImagePixels.MakeIndexInjective | src/image.c:517-537 | two rectangles get the same index iff their values agree modulo 2^16 |
| ImagePixels.MakeIndexAllOnes | src/image.c:519-522 | the rectangle (-1, -1, -1, -1) gets -1, the index that stands for no rectangle |
| ImagePixels.MakeIndex | src/image.c:517-537 | models `image_makeindex`; the index is a signed 64-bit integer |

## Left out

- Locks and threads: `mutex_acquire` and `mutex_release` only make one slot's read or
  update atomic, so each critical section is one step of a method.
- The XInput and IOKit backends are calls into the operating system. On Linux, `open`,
  `read` and `close` of `/dev/input/js<n>` are left out. The events a poll reads are a
  parameter, and a device that cannot be opened is `None`.
- Lua plumbing is left out: argument checking, userdata allocation, metatables, and
  `luaL_error` (modelled as an `Err` result).
  - Error messages are kept as constant strings. Formatted arguments are dropped:
    `Gamepad.GamepadView.Update` answers `"Invalid gamepad id"`, where the source formats
    `"Invalid gamepad id %d"` with the index (src/gamepad.c:275).
  - `lua_setfield` on the host record is a list of writes.
  - Buffer arguments are given as byte sequences with their kind and length.
- Decoding and encoding with stb (`image_load`, `image_info`, `image_resize`,
  `limage_write_png`) are foreign calls, and `image_resize` uses floating point.
  - `image_load_alpha` is modelled from the decoded picture on, which stb gives as
    `x·y·4` bytes.
- `check_canvas` and `image_canvas_size` are left out: the first only checks Lua types,
  the second only returns fields.
- All 32-bit `int` arithmetic of the C code is computed on unbounded integers, sums and
  offsets as well as products. This covers:
  - the products `x·y·4`, `4·x·dy`, `stride·(y+h)`, `width·height·4` and `w·h·4`;
  - the sums `w + dx` and `h + dy` in `rect_init` (src/image.c:149, 152);
  - `x + w` and `y + h` in `image_canvas` (src/image.c:424) and its offset
    `y·stride + x·4` (src/image.c:441);
  - `x + w` in `canvas_blit` (src/image.c:496) and its offsets `y·stride + 4·x` and `w·4`
    (src/image.c:506, 509).

  Where C overflows (undefined behaviour, in practice a negative wrap), the model keeps the
  exact value. For example, `image_canvas(s, 10, 1, 2147483647, 0, 1, 1)` is refused with
  "Invalid rect" by `MakeCanvas`, while in C `x + w` wraps and the check passes. The
  truncation of `lua_Integer` arguments to `int` is not modelled either.
  - For `image_makeindex` the truncation does not matter, since only the low 16 bits are
    kept.
- `image_makeindex` relies on the little-endian layout of the union, which is the layout on
  the targets soluna builds for.
- ImagePixels.NewImage: the width and height are natural numbers. `image_new` with
  negative sizes is not modelled: one negative dimension asks `lua_newuserdatauv` for a
  negative size, and two give a positive product (`image_new(-1, -1)` makes 4 bytes).
- ImagePixels.LoadAlpha: requires the picture to have exactly `x·y·4` bytes, which is what
  the stb decoder returns with four channels requested.
- ImageCanvas.CanvasBlit: requires both canvases to lie inside their buffers, which the C
  code takes for granted without checking. String canvases made with a narrow stride break
  this assumption; see Findings.
  - `CanvasFits` also requires the rows not to overlap (4·width ≤ stride).
  - `image_canvas` takes any explicit stride (src/image.c:416-417) and never checks the size
    of a userdata buffer (src/image.c:439-440). So `image_canvas(ud, 10, 2, 4)` is a canvas
    whose rows overlap.
  - C blits into such a canvas row by row, and each later row overwrites the tail of the
    one before (src/image.c:505-512).
  - A canvas with a stride narrower than 4·width, as destination or as source, is not
    modelled.
- ImageCanvas.CanvasBlit: the source is a byte sequence separate from the destination
  array. A blit from a canvas onto an overlapping canvas of the same buffer (aliasing,
  where `memcpy` is undefined) is not modelled.
- ImageCanvas.GetImageBuffer: the image is a value with a type flag, optional numeric
  `.width` and `.height` and a raw length. Which Lua values carry a metatable is not
  modelled.
- ImagePixels.NewImageIsImage: records the width and height as numbers. `image_new` stores
  arguments 1 and 2 as given (src/image.c:389-393), and `luaL_checkinteger` also accepts a
  numeric string. So `image_new("2", "2")` records strings, which `get_image_buffer` then
  refuses (src/image.c:288). This case is not modelled.
- src/render.c, src/luamods.c, src/openurl.c, src/file.c and src/font_manager.h are not
  part of this model: they wrap graphics, module registration, process spawning and file
  I/O, or only declare.

## Findings

| source | as written | input that shows it | evidently intended | confidence | as-written member | corrected member |
|---|---|---|---|---|---|---|
| src/gamepad.c:300-302 | on a connect edge `tmp.rs_y` is pushed but never stored with `lua_setfield`, and the steady branch only writes RS_Y when it differs from the view, which the edge has already set to the new state | a pad connecting with RS_Y = -100 while the record still holds 0: the record keeps 0 across the edge and every following steady update while RS_Y stays at -100 | RS_Y written on the connect edge (and reset on the disconnect edge) like the other numeric fields | high, not executed | Gamepad.SyncConnectLeavesStaleRsY | Gamepad.SyncFixedKeepsRecord |
| src/image.c:268-277 | `top` is compared with the requested `h`, not the clipped `r.line`, so a fully transparent rect shorter than the request gets through, and `remove_left` and `remove_right` then both answer the width | a fully transparent 1-row image of width x cropped with h = 2: the result is (x, 1, -x, 1) | no box for a rect with no opaque pixel | high, not executed | ImageRect.CropNegativeWidth | ImageRect.CropFixedRows |
| src/image.c:189 | `remove_bottom` stops before row 0, so when every row but row 0 is transparent it removes nothing | a 2-row image whose first row is opaque and second transparent: the box keeps both rows | the transparent bottom rows removed, leaving row 0 only | medium, not executed | ImageRect.CropKeepsTransparentBottom | ImageRect.CropFixedRows |
| src/image.c:435-437 | the string size check uses `stride·(y+height)`, so a stride narrower than `4·width` passes while the last row runs past the string | a 4-byte string as a 10 by 1 canvas with stride 4 | the last row `(y+height-1)·stride + 4·x + 4·width` checked against the size | medium, not executed | ImageCanvas.NarrowStrideAccepted | ImageCanvas.MakeCanvasFixedFits |
