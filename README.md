# Photobooth core, modelled in Dafny

The photobooth is a kiosk with two halves. The page (`static/js/main.js`)
shows the countdown effects, the photo reel of the latest captures, and
listens to a gamepad. The Python camera service (`src/camera_capture.py`)
numbers and saves the photos, lists them, and builds the Google Drive upload
request for each one. This project models the data and the state changes of
both halves and proves what each one promises.

Page side:

- `Tiles`: how `TilesetSprite.getTileCoords` addresses tiles, and the
  per-column frame sequence of a traveling arrow.
- `FrameCursor`: the interval-driven frame cursor of `TilesetSprite.animate`.
  The class `FrameAnimation` holds the closure state, and `Tick` is one
  timer tick.
- `FrameAccumulator`: the delta-time accumulator of
  `TravelingArrowsManager.animate`. The class `FrameClock` holds the closure
  state plus the manager's `lastFrameTime`.
- `TravelingArrows`: the manager's tracked sets of spawners, arrows and
  impacts, the arrows and impacts it creates, the spawn-sequence tick
  counter, and `clearAllArrows`. Timers and page elements are numeric
  handles. The random column draw is a parameter: the set of columns whose
  draw succeeded.
- `PhotoReel`: the bounded, newest-first reel.
- `Gamepad`: the rising-edge and cooldown debouncer of
  `CameraApp.pollGamepad`.

Camera-service side:

- `PhotoNames`: the `photo_<n>.jpg` names, the regular expression that
  reads them back, and `_get_last_photo_number`.
- `PhotoListing`: `get_all_photos` and `get_latest_photo`. This covers the
  filter, Python's `int()` of the key field, the stable descending sort, and
  the `ValueError` a non-numeric key raises.
- `CaptureSystem`: the class `CameraCaptureSystem` with its capture counter,
  its directory listing, its upload queue and its streaming flag.
- `DriveUpload`: the metadata and MIME type that
  `GoogleDriveUploader.upload_file` sends.
- `Paths`: the parts of `os.path` the service uses.

`Wrappers` and `Arith` are supporting modules (an `Option`/`Result` pair and
facts about division).

Clearing the traveling effects does not cancel every pending timer.
`createTravelingArrow` discards the interval handle that `sprites.animate`
returns (main.js:361), and `createImpactEffect` never records its fade-out
timeout (main.js:306-309). Neither is in `activeSpawners`, so
`clearAllArrows` cancels neither. `Manager.ClearAllArrows` states that every
arrow's frame interval is left uncancelled.

On a gamepad (dis)connection the page clears the recorded button states of
every pad, with the stated aim of preventing false triggers
(main.js:751-761). `Gamepad.ClearedStatesSeeHeldButtons` shows what clearing
does: a button held down through the clear counts as newly pressed on the
next poll, so a button held on a pad that stays connected can fire when
another pad connects. What the clear guards against is stale states left
by a pad that goes away; whether the authors meant it to reach the other
pads as well is not evident from the code, so this is recorded as
behaviour and not claimed as a defect.

## Model

| member | source | states |
|---|---|---|
| Tiles.JsRemainder | static/js/main.js:152 | JavaScript's `%`: for a non-negative dividend the result lies in [0, n); for a negative one it lies in (-n, 0], with the sign of the dividend. |
| Tiles.GetTileCoords | static/js/main.js:149-154 | For a non-negative index: the row is non-negative, the column lies in [0, cols), and row*cols + col gives back the index. |
| Tiles.TileCoordsRoundTrip | static/js/main.js:149-154 | Every row/column cell of the sheet is reached by exactly the index that addresses it: getTileCoords inverts the row-major layout. |
| Tiles.ColumnFrames | static/js/main.js:355-359 | The sequence has one frame per sheet column. For a non-negative column c, frame i is the tile that getTileCoords places at row c, column i. |
| Tiles.ColumnFramesOnRow | static/js/main.js:355-359 | The frame sequence of column c has `columns` entries. Entry i maps through getTileCoords to row c, column i. When c < rows, every entry lies inside the sheet. |
| FrameCursor.NextFrameIndex | static/js/main.js:181 | One tick keeps the cursor below the length. It moves to i+1, or wraps to 0 from the last frame. |
| FrameCursor.AdvanceBy | static/js/main.js:178-185 | After any number of ticks the cursor is still inside the sequence. |
| FrameCursor.AdvanceByIsModular | static/js/main.js:181 | n ticks from i leave the cursor at (i+n) mod length. |
| FrameCursor.CursorReturnsAfterLength | static/js/main.js:176-185 | From frame 0 the cursor is back at 0 exactly when the number of ticks is a multiple of the length. It returns after `length` ticks and never before. |
| FrameCursor.RenderedAt | static/js/main.js:178-185 | The k-th tile drawn is frameSequence[k mod length]. |
| FrameCursor.FrameAnimation.Start | static/js/main.js:175-186 | `animate` draws frameSequence[0] at once and leaves the cursor on the next frame. |
| FrameCursor.FrameAnimation.Tick | static/js/main.js:178-182 | A tick draws the frame under the cursor and advances the cursor circularly. The invariant ties the cursor to the number of tiles drawn. |
| FrameCursor.FrameAnimation.DrawnInCircularOrder | static/js/main.js:175-186 | Whatever the number of ticks so far, the cursor is in range, and the k-th drawn tile is frames[k mod length]. |
| FrameAccumulator.Accumulate | static/js/main.js:234-241 | The frame advances exactly when accumulated + delta reaches the interval. The new accumulated time is below the interval, and not negative when the sum is not negative. Without an advance the time just adds up. With an advance at least one whole interval is removed, and only whole intervals ever are. |
| FrameAccumulator.DeltaTime | static/js/main.js:231-232 | Once `lastFrameTime` is set, the delta is the time elapsed since it. A falsy (zero) `lastFrameTime` gives a zero delta. The delta is never negative for timestamps that do not go back. |
| FrameAccumulator.LongGapAdvancesOnce | static/js/main.js:232-241 | A gap of any whole number of intervals advances exactly one frame and drops the rest: no catching up. |
| FrameAccumulator.FrameClock.Start | static/js/main.js:226-228 | The closure starts at frame 0 with nothing accumulated. |
| FrameAccumulator.FrameClock.OnAnimationFrame | static/js/main.js:230-244 | One callback: a falsy `lastFrameTime` gives a zero delta. The frame advances (one circular step, drawing the current tile) exactly when the accumulator says so. `lastFrameTime` becomes the timestamp. The invariant keeps advances*interval + accumulated at most the total elapsed time. |
| PhotoReel.AddedPhoto | static/js/main.js:62-77 | The new photo comes first and the old ones follow in order, only the last one possibly dropped. Below three children nothing is dropped. From three on, the count stays the same. A reel of at most three stays at most three. |
| PhotoReel.AddedPhotos | static/js/main.js:805-808 | Adding photos one by one keeps a reel of at most three photos at most three long. After at least one add, the last photo added is shown first. |
| PhotoReel.AddedPhotosShowsNewest | static/js/main.js:62-77 | On a reel of at most maxPhotos = 3, adding photos one by one shows the newest three of everything, newest first. |
| PhotoReel.TripleCaptureFillsReel | static/js/main.js:806-808 | Adding a triple capture [a, b, c] to a reel of at most three leaves exactly [c, b, a]. |
| PhotoReel.Reel.constructor | static/js/main.js:57-60 | The reel starts with the given children and message state. |
| PhotoReel.Reel.AddPhoto | static/js/main.js:62-77 | The children become AddedPhoto of the old children, and the "no photos" message is gone. |
| PhotoReel.Reel.AddCapturedPhotos | static/js/main.js:806-808 | Adding each returned filename in order gives the fold of AddedPhoto. The message is gone once any photo was added. |
| Gamepad.HeldButtonsDoNotRefire | static/js/main.js:775-788 | After a poll has recorded the buttons, polling the same button states finds no new press. |
| Gamepad.ClearedStatesSeeHeldButtons | static/js/main.js:751-761 | Once the states are cleared on (dis)connection, any button held down counts as newly pressed. |
| Gamepad.GamepadPoller.constructor | static/js/main.js:735-740 | No states are recorded and the last gamepad capture is at time 0. |
| Gamepad.GamepadPoller.ClearButtonStates | static/js/main.js:751-761 | The (dis)connection handlers forget every recorded state and keep the cooldown clock. |
| Gamepad.GamepadPoller.PollGamepad | static/js/main.js:767-792 | At most one capture per poll. A capture fires exactly when some button is pressed now but was not pressed (or not recorded) before, and at least 10000 ms have passed since the last gamepad capture. `lastGamepadCapture` moves only on a capture. Every button of every connected pad records its current state, and other entries are kept. |
| TravelingArrows.ChosenColumns | static/js/main.js:377-378 | A spawning tick uses the chosen columns among 0..3, each once, in ascending order, and every chosen column below 4. |
| TravelingArrows.SequenceColumnsBound | static/js/main.js:377-384 | n spawning ticks create at most 4n arrows, all in columns 0..3. |
| TravelingArrows.SpawnSequenceBound | static/js/main.js:366-385 | floor(900/300) = 3 spawning ticks, so a sequence creates at most 12 arrows. |
| TravelingArrows.Manager.constructor | static/js/main.js:219-223 | The manager starts with all three tracked sets empty. |
| TravelingArrows.Manager.CreateTravelingArrow | static/js/main.js:320-364 | A fresh arrow element is added to activeArrows. Its arrival and removal timeouts are added to activeSpawners. Its frame interval over the tiles of row `columnIndex` is not tracked. |
| TravelingArrows.Manager.CreateImpactEffect | static/js/main.js:275-318 | A fresh impact element is added to activeImpacts, and its removal timeout to activeSpawners. Its fade-out timeout is not tracked. |
| TravelingArrows.Manager.OnArrowImpactTimeout | static/js/main.js:343-345 | The arrival timeout creates an impact on the arrow's column. |
| TravelingArrows.Manager.OnArrowRemoveTimeout | static/js/main.js:347-350 | The removal timeout deletes the arrow from activeArrows and changes nothing else. |
| TravelingArrows.Manager.OnImpactRemoveTimeout | static/js/main.js:312-315 | The removal timeout deletes the impact from activeImpacts and changes nothing else. |
| TravelingArrows.Manager.SpawnColumns | static/js/main.js:380-382 | One arrow per chosen column, in order, each with rotations[column] and the frames of row `column`. The tracked sets grow by exactly their elements and timers. |
| TravelingArrows.Manager.ClearAllArrows | static/js/main.js:252-273 | activeSpawners, activeArrows and activeImpacts end empty. Exactly the previously tracked timers are cancelled. No arrow's frame interval is cancelled. |
| TravelingArrows.Manager.SpawnArrowSequence | static/js/main.js:366-392 | The spawner interval and the final timeout are two new handles, both tracked, and the new sequence has spawnCount 0. |
| TravelingArrows.ArrowSequence.constructor | static/js/main.js:367-370 | A sequence starts running with spawnCount 0. |
| TravelingArrows.ArrowSequence.Tick | static/js/main.js:370-385 | Once 3 ticks have spawned, the next call clears and untracks the interval and creates nothing. Before that, a call spawns the chosen columns and increments spawnCount. The invariant keeps spawnCount at most 3 and the arrows created at most 4 per tick. |
| PhotoNames.DecimalRoundTrip | src/camera_capture.py:365-372 | `int` of the digits `f"{n}"` writes is n. |
| PhotoNames.LeadingDigits | src/camera_capture.py:364 | The greedy `\d+` takes a prefix of digits and stops at the first non-digit. |
| PhotoNames.PhotoName | src/camera_capture.py:372 | `photo_{n}.jpg` is `photo_`, then a non-empty run of decimal digits, then `.jpg`. |
| PhotoNames.MatchPhotoNumber | src/camera_capture.py:364-366 | A name the pattern accepts starts with `photo_` and is longer than `photo_.jpg`. Which names it accepts, and with which number, is stated by MatchAcceptsPhotoNames and MatchOnlyPhotoNames. |
| PhotoNames.MatchAcceptsPhotoNames | src/camera_capture.py:364-366 | `photo_<digits>.jpg` followed by any text matches, with the number those digits spell. |
| PhotoNames.MatchOnlyPhotoNames | src/camera_capture.py:364-366 | Only such names match: a match means the name is `photo_` + digits + `.jpg` + rest. |
| PhotoNames.PhotoNameRoundTrip | src/camera_capture.py:364-372 | The name written for n is read back as n. |
| PhotoNames.PhotoNameInjective | src/camera_capture.py:372 | Different counters give different file names. |
| PhotoNames.Max | src/camera_capture.py:367 | `max` returns a member that no element exceeds. |
| PhotoNames.GetLastPhotoNumber | src/camera_capture.py:361-367 | The result is -1 exactly when no name matches. Otherwise it is the number of some matching name, and no matching name has a larger number. |
| Paths.Basename | src/camera_capture.py:132 | `basename` is the whole part of the path after its last '/': a suffix holding no '/', preceded by a '/' unless it is the entire path. |
| Paths.JoinPath | src/camera_capture.py:372 | An absolute second component replaces the first. Otherwise the result starts with the directory and ends with the name, with a '/' just before the name whenever the directory is not empty. A separator is added exactly when the directory is not empty and does not already end in '/', so no doubled '/' appears. |
| Paths.BasenameOfJoin | src/camera_capture.py:132 | The basename of a file name joined onto a directory is that file name. |
| Paths.SplitExt | src/camera_capture.py:140 | Root + extension is the path. The extension is empty, or a '.' followed by text with no '/' and no further '.'. A non-empty extension starts after the last '/' and has a character other than '.' before it in the base name. An empty extension means every '.' of the base name has only dots before it there, so leading dots belong to the root. |
| Paths.SplitExtOfSuffix | src/camera_capture.py:140 | After a stem that does not end in '/' or '.', a dot-extension is what `splitext` returns. |
| Paths.AsciiLower | src/camera_capture.py:140 | `lower()` maps each character and keeps the length. |
| PhotoListing.Candidates | src/camera_capture.py:450 | Exactly the listing entries that start with `photo_` and end with `.jpg` are kept. |
| PhotoListing.BeforeFirst | src/camera_capture.py:451 | `split(c)[0]` is the prefix before the first c, or the whole text. |
| PhotoListing.ParseInt | src/camera_capture.py:451 | `int()` accepts only, after stripping white space, one or more digits with an optional leading sign. A negative result needs a leading '-'. |
| PhotoListing.SecondFieldOfListed | src/camera_capture.py:451 | For a name that passes the filter, `split('_')[1]` is the text right after `photo_`, up to the next '_'. |
| PhotoListing.ParseIntReadsDigits | src/camera_capture.py:451 | `int()` of a run of digits is its decimal value. |
| PhotoListing.ParseIntReadsSigned | src/camera_capture.py:451 | `int()` of a sign followed by digits is the signed decimal value. |
| PhotoListing.Decorate | src/camera_capture.py:451 | Every name is paired with its own key, in order. |
| PhotoListing.InsertAdds | src/camera_capture.py:449-453 | Insertion adds exactly the new entry and keeps the rest. |
| PhotoListing.InsertSorted | src/camera_capture.py:449-453 | Inserting into a descending sequence keeps it descending. |
| PhotoListing.SortDescending | src/camera_capture.py:449-453 | The sort output has the input's length and is in descending key order. |
| PhotoListing.SortPermutes | src/camera_capture.py:449-453 | The sort output is a permutation of its input. |
| PhotoListing.InsertKeepsKeyOrder | src/camera_capture.py:449-453 | Insertion places the entry before the others with its key. |
| PhotoListing.SortIsStable | src/camera_capture.py:449-453 | Entries with equal keys keep their input order, as Python's `sorted` with `reverse=True` does. |
| PhotoListing.FirstUnkeyed | src/camera_capture.py:451 | Returns a filtered name whose key `int()` rejects, and every name before it has a key: it is the first rejected one, where the sort's key function raises. It returns none exactly when every key parses. |
| PhotoListing.GetAllPhotos | src/camera_capture.py:448-453 | The call fails (ValueError) exactly when some filtered name has a non-numeric key, naming such a name. Otherwise the result holds exactly the filtered names, as a permutation, in descending key order. |
| PhotoListing.GetAllPhotosStable | src/camera_capture.py:448-453 | Photos with equal keys appear in listing order. |
| PhotoListing.GetLatestPhoto | src/camera_capture.py:444-446 | The call fails exactly when `get_all_photos` does. It gives None exactly when no name passes the filter. Otherwise it gives a listed photo whose key no listed photo exceeds. Among photos sharing that greatest key it gives the one listed first, since the sort is stable. |
| PhotoListing.PhotoNameKey | src/camera_capture.py:451 | The names the service writes pass the filter and sort by their own number. |
| PhotoListing.KeyFieldOfDigits | src/camera_capture.py:451 | The key field of `photo_<digits>.<...>` is exactly those digits. |
| PhotoListing.MatchedNamesSortByNumber | src/camera_capture.py:364-366 | On listed names that the numbering regex accepts, the sort key equals the regex's number: the two parsers agree. |
| PhotoListing.NewestCaptureIsLatest | src/camera_capture.py:444-453 | Adding a photo numbered above every listed key makes it the latest photo. |
| DriveUpload.TargetFolder | src/camera_capture.py:131 | `folder_id or self.folder_id`: the argument wins when truthy, otherwise the instance folder is used. The result is truthy when either one is. |
| DriveUpload.MimeType | src/camera_capture.py:140-146 | The result is `image/jpeg` exactly when the lower-cased extension is `.jpg` or `.jpeg`, and `application/octet-stream` otherwise. |
| DriveUpload.UploadFile | src/camera_capture.py:117-147 | The name is the basename. `parents` is present exactly when the argument or the instance folder is truthy, and holds the argument's folder first, otherwise the instance's. The MIME type follows the extension. |
| DriveUpload.JpegExtensionsIgnoreCase | src/camera_capture.py:140-146 | `.jpg` and `.jpeg` in any letter case, after a stem, give `image/jpeg`. |
| DriveUpload.JpegOnlyForJpegNames | src/camera_capture.py:140-146 | `image/jpeg` is chosen only for paths ending in `.jpg` or `.jpeg`, in some letter case. |
| DriveUpload.CapturedPhotoUpload | src/camera_capture.py:25-48 | A queued capture `photo_<n>.jpg` is uploaded under its own name, as `image/jpeg`, into the uploader's folder. |
| CaptureSystem.CameraCaptureSystem.constructor | src/camera_capture.py:262-272 | The counter is the largest photo number on disk plus one (0 when there is none). The stream is off and nothing is queued. |
| CaptureSystem.CameraCaptureSystem.StartMjpegStream | src/camera_capture.py:346-350 | Streaming ends on. Recording starts only if it was off, so a repeated call changes nothing. |
| CaptureSystem.CameraCaptureSystem.StopMjpegStream | src/camera_capture.py:352-358 | Streaming ends off. Recording stops only if it was on, so a repeated call changes nothing. |
| CaptureSystem.CameraCaptureSystem.CaptureSingleImage | src/camera_capture.py:369-393 | The counter rises by one before naming. The saved name was not on disk and its number exceeds every number on disk. When every listed key was at most the old counter, it becomes the latest photo. Streaming ends off. |
| CaptureSystem.CameraCaptureSystem.Upload | src/camera_capture.py:437-441 | The name is appended to the upload queue. |
| CaptureSystem.CameraCaptureSystem.CaptureImage | src/camera_capture.py:395-401 | The counter rises by exactly one, and exactly the returned name is queued. |
| CaptureSystem.CameraCaptureSystem.CaptureSeries | src/camera_capture.py:415-425 | The capture loop: consecutive numbers, paths collected in capture order. |
| CaptureSystem.CameraCaptureSystem.UploadAll | src/camera_capture.py:429-430 | Every name is queued, in order. |
| CaptureSystem.CameraCaptureSystem.CaptureImage3 | src/camera_capture.py:403-435 | Three names in capture order, numbered old+1..old+3, queued in that order. The counter rises by 4 and streaming ends on. |
| CaptureSystem.SaveNewPhoto | src/camera_capture.py:371-372 | A number above every number on disk names a new file, and afterwards every number on disk is at most it. |

## Left out

- DOM, CSS and canvas work is not modelled: `createSprite` styling, `updateSprite`'s `drawImage`, the countdown, score and fade keyframes, and the `requestAnimationFrame` callbacks that only set styles (main.js:301-303, 338-340).
- The layout arithmetic with fractional scales (`containerScale`, `gapScale`, element positions) is floating point and is not modelled.
- `TravelingArrowsManager.animate` calls a method the manager does not have (main.js:238). Only its counter arithmetic is modelled; drawing is the `displayed` field. The `animationFrameId` it stores, and the `cancelAnimationFrame` in `clearAllArrows`, are not modelled.
- `Math.random()` becomes the chosen set of columns passed to `ArrowSequence.Tick`. Probabilities are not modelled.
- The timing of timers (delays, intervals, the Promise resolved by the final timeout) is not modelled. Timer callbacks are methods that the caller invokes.
- TravelingArrows.Manager.OnArrowImpactTimeout: the rotation argument that `createImpactEffect` ignores is not passed.
- Gamepad.GamepadPoller.PollGamepad: `handleCapture` is counted, not modelled; it fetches from the server. Buttons are only `pressed`, not analogue values.
- FrameAccumulator.FrameClock.OnAnimationFrame: timestamps are taken to never decrease, as animation-frame timestamps do. A clock running backwards is not modelled. Each `FrameClock` keeps its own `lastFrameTime`, while in the page every `animate` loop of one manager shares `this.lastFrameTime` (main.js:231, 243); interleaved loops are not modelled.
- PhotoReel.Reel.AddPhoto: the position of the "no photos" element in the page, and the `img` attributes (`src`, `alt`, click handler), are not modelled. The reel's child nodes are taken to be exactly its `img` elements: the page compares `children.length` (elements only) but inserts before `firstChild` and removes `lastChild` (any node, main.js:72-75). With white-space text nodes in the reel, the first overflow would remove a text node and leave four photos; that case is not modelled.
- PhotoNames.MatchPhotoNumber: `\d` is taken as the ASCII digits; Python also accepts other Unicode decimal digits.
- PhotoListing.ParseInt: only ASCII digits and the white space that can be written in ASCII are handled. Underscore digit grouping is excluded: the field was split on '_' and cannot contain one.
- PhotoListing.GetAllPhotos: the failure carries the offending file name, not the `ValueError` message.
- Paths.AsciiLower: `lower()` of non-ASCII letters is not modelled.
- CaptureSystem.CameraCaptureSystem.CaptureSingleImage: the camera shot, the LED flash, the 0.1 s sleep and the watermarking with PIL are not modelled. Saving is the name appended to the directory listing. An exception from `stop_recording` is caught and printed in the source, and is not modelled. The failure of `capture_file`, `Image.open` or `save` (camera_capture.py:379-389) is not modelled either: in the source the exception propagates with the counter already advanced, no file written and the stream still recording.
- CaptureSystem.CameraCaptureSystem.StartMjpegStream: a failing `start_recording` (camera_capture.py:350) is not modelled. In the source it leaves `streaming` set with nothing recording, which breaks "records exactly while streaming".
- Gamepad.GamepadPoller.constructor: the first poll is not modelled. The page's constructor calls `initializeGamepad()`, which polls at once (main.js:733, 764), before `previousButtonStates` and `lastGamepadCapture` are assigned (main.js:736-740). With a pad already visible at load, that first poll throws a TypeError and the polling loop is never scheduled. The model starts from the assigned state and polls afterwards.
- CaptureSystem.CameraCaptureSystem.CaptureImage3: the one-second pacing between shots and the countdown animation are not modelled.
- `capture_lock`, the `UploadQueue` background thread, `PixelAnimator`'s threads, `StreamingOutput` and `mjpeg_generator` are concurrency and hardware, and are not modelled. The upload queue is the sequence of queued names.
- `GoogleDriveUploader.authenticate`, `create_folder` and the Drive API calls are network calls. `MediaFileUpload` is represented by the chosen MIME type.
- `_setup_watermark`, `setup_camera` and `os.makedirs` are hardware and file-system setup, and are not modelled.
- src/bluetooth.py, app.py and src/web_server.py are not part of this model: device probing, console output and Flask routing.
