# color-composer-client: the LED engine, modelled in Dafny

The client drives addressable LED strips ("NeoPixels") attached to a small
board. Colour frames arrive as binary WebSocket messages and are decoded
into `RgbFrame`s. Configurations describe which strip hangs on which data pin,
how many LEDs it has and how bright it is. Both reach a single LED thread
through a queue. The thread applies valid configurations to a
`NeoPixelRenderer`, shows frames stamped 0 at once, and buffers every other
frame in timestamp order. Whenever frames are buffered, it runs a render
pass. For each output, the pass shows the first buffered frame within 10 ms
of now. It drops frames more than a second late and keeps the others for
later.

The model has one module per source file:

| module | file | source |
|---|---|---|
| `Wrappers` | wrappers.dfy | the `Option`/`Result` types of the error paths |
| `RgbFrames` | rgb_frame.dfy | `rgb_frame.py`: `Rgb`, `RgbFrameOptions`, `RgbFrame` as datatypes |
| `Validation` | validation_result.dfy | `validation_result.py`: `ValidationResult` as a datatype |
| `Config` | neopixel_config.dfy | `neopixel_config.py`: the config datatype, `check_validity`, `str.strip`, `from_json` |
| `Codec` | flask_server.dfy | `flask_server.py`: the binary frame decoder of `websocket_handler`, and the list joiner of `__handle_get` |
| `Playback` | playback.dfy | the buffer operations of `neopixel_renderer.py` as functions: sorted insertion, filtering by output, and the verdict of a render pass on each frame |
| `Renderer` | neopixel_renderer.dfy | `NeoPixelRenderer` as a class, and the strip driver as a class `NeoPixel` |
| `Scheduler` | neopixel_thread.dfy | `neopixel_thread.py`: one iteration of the thread loop, `_update_config`, `_handle_new_frame`, `__is_config_list` |

The renderer is imperative, as in the source:
- `neopixels` is a `map` field and `buffered` a `seq` field, which the methods reassign.
- Each strip's pixel buffer is an `array` that `render_frame` writes in a loop.
- The selection loop of `render_queue` and the purge loop of `update_configs` walk the buffer with a cursor and remove frames at it.
- Each method is proved to leave the state that a specification function in `Playback` describes. The properties the source promises are proved about those functions.
- A ghost `events` trail records every strip acquired and released, in order.

Environment inputs become parameters:
- The current time is `now`, in integer milliseconds.
- The message a poll returned is an `Option<Message>`, where `None` means the poll timed out.
- The loop's local `idle` flag is passed into `Scheduler.Step` and returned by it. It starts false (`Scheduler.StartsIdle`).

The model fixes the following:
- The strip driver fails for an unknown pin or a negative length. Configurations that pass validation never hit either case.
- An exception that would end the LED thread is a `false` result from the renderer and a `fault` result from the thread step. Examples are a `KeyError` for a frame whose output has no strip, and `to_json` called on an integer in a configuration list.
- `update_configs` keys the registry by pin, as written. `update_config` keys it by configuration id: it releases the strip under the id and then acquires a new one.
- `_handle_new_frame` clears the frame's `pin`.
- The decoder addresses every frame to the output `"test"`, as the code does. Such a frame renders only if a strip is registered under that name.
- The renderer's class-level `neopixels` and `buffered_frames` are instance fields.

Three statements of the source cannot run as written; see "## Findings". The model keeps each as written in a separate member, and the rest of the model uses the corrected behaviour.

## Model

| member | source | states |
|---|---|---|
| Config.CheckValidity | neopixel_config.py:29-53 | valid exactly when the id is not blank, leds ≥ 1, 0 ≤ brightness ≤ 100 and the pin is one of D10, D12, D18, D21; the reason is empty exactly when the result is valid |
| Config.BlankEverywhere | neopixel_config.py:30 | the id test (`isspace()` or empty) holds exactly when every character is whitespace |
| Config.FirstFailureDecides | neopixel_config.py:30-42 | the checks run in the order id, leds, brightness: once one fails, the fields later checks read cannot change the result, and a blank id always gives the blank-id reason |
| Config.ValidationBoundaries | neopixel_config.py:32-48 | 0 LEDs, brightness 101 or −1 and pin D11 are rejected; brightness 0 and 100 with one LED are accepted |
| Config.RejectionReasons | neopixel_config.py:30-52 | a rejected config carries the reason of the first check it fails: blank id, too few LEDs, brightness out of range, unsupported pin |
| Config.Strip | neopixel_config.py:67-68 | `str.strip`: the result is no longer than the input, neither starts nor ends with whitespace, and is empty exactly when the input is blank |
| Config.StripIdempotent | neopixel_config.py:67-68 | a string with no whitespace at either end is left unchanged, so stripping twice equals stripping once |
| Config.StripBounds | neopixel_config.py:67-68 | `str.strip` keeps a middle piece s[i..k] and cuts only whitespace before i and from k on |
| Config.StripTrims | neopixel_config.py:67-68 | the stripped string is a slice of the input whose cut-off ends are both blank |
| Config.FromJson | neopixel_config.py:66-71 | a present id (and pin) becomes its stripped value and a missing one the empty string, so it is empty exactly when missing or blank; leds and brightness are taken as given, 0 when missing |
| Config.FromJsonValidity | neopixel_config.py:66-71 | `from_json` gives a valid config exactly when the id is present and not blank, leds is present and ≥ 1, brightness is missing or in [0, 100], and the pin strips to a supported one |
| Config.EmptyJsonInvalid | neopixel_config.py:66-71 | `from_json({})` never gives a valid config |
| Codec.Slice | flask_server.py:55 | Python's `m[lo:hi]`: its length is clamped to the message, and byte k is `m[lo + k]` |
| Codec.LittleEndian | flask_server.py:56 | `int.from_bytes(…, "little")`; its properties are in the three rows below |
| Codec.LittleEndianBound | flask_server.py:56 | an n-byte little-endian value is below 256^n |
| Codec.LittleEndianRoundTrip | flask_server.py:56 | encoding t < 256^n as n little-endian bytes and reading them back gives t |
| Codec.ToLittleEndianRoundTrip | flask_server.py:56 | reading bytes as a little-endian value and writing that value back gives the same bytes |
| Codec.Decode | flask_server.py:45-65 | decoding succeeds exactly when the message is non-empty and has no partial colour group after the 13-byte header; an empty message is the only `EmptyMessage`; a frame has one sample per colour group after the header and the output `"test"` |
| Codec.DecodeMessage | flask_server.py:46-65 | the decoder's cursor loop (advancing by 3) computes `Decode` |
| Codec.ReceiveMessage | flask_server.py:45-71 | a binary message is decoded; a text message yields no frame |
| Codec.FlattenAt | flask_server.py:59-62 | sample k of an encoded frame occupies bytes 3k, 3k + 1 and 3k + 2 of the colour groups |
| Codec.EncodeDecodeRoundTrip | flask_server.py:45-65 | decoding an encoded frame returns its options, timestamp and samples, whatever the four unused bytes hold |
| Codec.DecodeEncodeRoundTrip | flask_server.py:45-65 | a well-formed message with a full header re-encodes, from its decoded frame, to itself except that byte 0 keeps only bit 0 |
| Codec.DecodeIgnoresUnusedBits | flask_server.py:46-52 | messages that agree on bit 0 of byte 0 and on bytes 5 onwards decode alike: the other option bits and bytes 1–4 are ignored |
| Codec.DecodeShortHeader | flask_server.py:46-62 | a non-empty message of at most 13 bytes decodes to a frame with no samples, the timestamp of whichever bytes 5.. exist (0 when none do) and the options of byte 0 |
| Codec.SerializeList | flask_server.py:138-145 | the joining loop builds `"[" + item0 + "," + … + "]"` |
| Codec.JsonListCommas | flask_server.py:138-145 | the list holds the items' own commas plus n − 1 separating ones (none for n = 0), whatever the items contain; the empty list is `"[]"` |
| Codec.JoinedCommas | flask_server.py:140-144 | the joined items hold the items' own commas plus exactly n − 1 separating commas |
| Codec.JsonListLength | flask_server.py:138-145 | the list is as long as its items together, plus n − 1 commas and the two brackets: nothing else is added or lost |
| Playback.InsertMultiset | neopixel_renderer.py:71-75 | inserting adds the frame and loses none |
| Playback.Insert | neopixel_renderer.py:71-75 | the stable insertion of a frame; the buffer grows by one (see the insertion lemmas) |
| Playback.SortByTimestamp | neopixel_renderer.py:73-75 | the stable sort by timestamp; see `SortByTimestampSpec` |
| Playback.SortByTimestampSpec | neopixel_renderer.py:73-75 | sorting by timestamp yields a sorted permutation of its input |
| Playback.InsertSorted | neopixel_renderer.py:71-75 | inserting into a sorted buffer keeps it sorted |
| Playback.InsertPosition | neopixel_renderer.py:71-75 | in a sorted buffer the new frame lands after every frame with a timestamp not greater than its own and before every later one, with the others in their order (a stable sort) |
| Playback.SortSortedIsIdentity | neopixel_renderer.py:73-75 | sorting a sorted buffer leaves it as it is |
| Playback.QueueFrameInserts | neopixel_renderer.py:71-75 | appending to a sorted buffer and sorting equals the stable insertion |
| Playback.FilterMembership | neopixel_renderer.py:54-57 | a frame survives a filter by output exactly when it was buffered and its output matches |
| Playback.FilterSubMultiset | neopixel_renderer.py:54-57 | filtering never adds frames |
| Playback.FilterSorted | neopixel_renderer.py:54-57 | filtering keeps a sorted buffer sorted |
| Playback.FilterOnPin | neopixel_renderer.py:54-57 | filtering keeps each selected output's frames, in order, and removes all of each other output's |
| Playback.Filter | neopixel_renderer.py:43-57 | the frames of a buffer whose output is (or is not) in a set, in order; never longer than the buffer |
| Playback.ClearPin | neopixel_renderer.py:54-57 | the buffer `clear_buffer` leaves; see `ClearPinSpec` |
| Playback.KeepConfigured | neopixel_renderer.py:43-52 | the buffer the purge of `update_configs` leaves; see `KeepConfiguredSpec` |
| Playback.ClearPinSpec | neopixel_renderer.py:54-57 | after `clear_buffer(pin)` no frame for `pin` is left, every other output keeps exactly its frames in order, and sortedness is kept |
| Playback.KeepConfiguredSpec | neopixel_renderer.py:43-52 | a frame survives the purge exactly when its output has a strip; surviving outputs keep their frames in order; sortedness is kept |
| Playback.CollectMembership | neopixel_renderer.py:82-110 | a frame is rendered (kept, dropped) by a pass exactly when it sits at an index with that verdict |
| Playback.VerdictAt | neopixel_renderer.py:87-110 | the pass's verdict on one frame: render, hold or drop; see the lemmas below |
| Playback.FirstCandidateRendered | neopixel_renderer.py:88-96 | for every frame within tolerance, a frame for its output at or before it is rendered |
| Playback.RenderedPins | neopixel_renderer.py:89-92 | during the walk, an output already has a chosen frame exactly when one of its earlier frames was within tolerance |
| Playback.AtMostOnePerPin | neopixel_renderer.py:88-96 | a pass renders at most one frame per output |
| Playback.RenderedWithinTolerance | neopixel_renderer.py:87-88 | every rendered frame is at most 10 ms from now |
| Playback.FirstInToleranceWins | neopixel_renderer.py:88-96 | a frame within tolerance is rendered when no earlier frame for its output was within tolerance, and otherwise stays buffered |
| Playback.DueFrameRendersItsOutput | neopixel_renderer.py:81-96 | when a frame is due exactly now, some frame for its output is rendered, and it is that frame unless an earlier one for the output was within tolerance |
| Playback.StaleFramesDropped | neopixel_renderer.py:97-110 | a frame is dropped exactly when it is more than 1000 ms late; kept and rendered frames are not stale |
| Playback.PassPartitions | neopixel_renderer.py:82-110 | rendered, kept and dropped frames together are exactly the buffered frames |
| Playback.CollectSorted | neopixel_renderer.py:82-110 | the frames kept by a pass, and those it renders, stay in ascending timestamp order |
| Playback.WindowBoundaries | neopixel_renderer.py:81-97 | ±10 ms is inside the window and 11 ms is not; 1001 ms late is stale and 1000 ms late is not |
| Renderer.BoardPinFromString | neopixel_renderer.py:125-137 | a board pin is found exactly for D10, D12, D18 and D21, and it is the pin of that name |
| Renderer.BoardPinRoundTrip | neopixel_renderer.py:125-137 | every board pin is found again from its name |
| Renderer.Painted | neopixel_renderer.py:63-65 | the pixels after a frame is written: as many as the strip has; see `PaintedProperties` |
| Renderer.Acquirable | neopixel_renderer.py:119-123 | the driver accepts a configuration: a known pin and a non-negative length |
| Renderer.NeoPixel.constructor | neopixel_renderer.py:123 | a new strip has its pin, length and brightness, a fresh buffer of n dark pixels, no flush yet, and is live |
| Renderer.NeoPixel.Show | neopixel_renderer.py:66 | a flush is counted; nothing else changes |
| Renderer.NeoPixel.Deinit | neopixel_renderer.py:33 | the strip is released |
| Renderer.PaintedProperties | neopixel_renderer.py:63-65 | a frame at least as long as the strip sets every pixel, whatever the strip showed; writing a frame twice equals writing it once; an empty frame changes nothing |
| Renderer.WritePixels | neopixel_renderer.py:63-65 | pixel i takes `rgb_data[i]` for i < min(n, len(rgb_data)); every other pixel keeps its colour |
| Renderer.PaintAllSpec | neopixel_renderer.py:112-113 | painting frames for distinct outputs in turn keeps the set of strips; each named strip shows its frame, flushed once more, and every other strip is as it was |
| Renderer.PaintedPrefix | neopixel_renderer.py:112-113 | a pass stopped after its first t frames has changed no strip without a frame among all the pass's frames |
| Renderer.AllAcquirableSpec | neopixel_renderer.py:38-40 | the acquisition loop's success condition holds exactly when the driver accepts every configuration |
| Renderer.ValidConfigAcquirable | neopixel_renderer.py:119-123 | the driver accepts every configuration that passes validation |
| Renderer.LastForSpec | neopixel_renderer.py:38-40 | the configuration registered for a pin exists exactly when some configuration names that pin, and it is the last one that does |
| Renderer.AnyOnPin | neopixel_renderer.py:89-91 | the inner loop finds a match exactly when a chosen frame is for the frame's output |
| Renderer.SelectFrames | neopixel_renderer.py:82-110 | the cursor loop leaves exactly the pass's rendered frames in the to-render list and its kept frames in the buffer |
| Renderer.KeyMatches | neopixel_renderer.py:46-48 | the inner loop finds a match exactly when the frame's output has a strip |
| Renderer.PurgeFrames | neopixel_renderer.py:43-52 | the purge loop leaves exactly the frames whose output has a strip, in order |
| Renderer.AcquireEach | neopixel_renderer.py:38-40 | acquires in order until the driver fails: every configuration before the stop is acceptable and the one at the stop is not; each named pin maps to a fresh strip set up by the last configuration for it; no two pins share a strip |
| Renderer.ReleaseEach | neopixel_renderer.py:32-33 | every registered strip is released, each key exactly once |
| Renderer.NeoPixelFromConfig | neopixel_renderer.py:119-123 | a fresh strip with the configuration's pin, length and brightness, all dark, exactly when the driver accepts the configuration |
| Renderer.UpdateConfigAsWrittenRaises | neopixel_renderer.py:23-28 | as written, `update_config` raises `AttributeError` on `uuid` for every configuration |
| Renderer.LogRegistryAsWritten | neopixel_renderer.py:60-61 | as written, the diagnostic loop succeeds only when every registry key is exactly two characters long |
| Renderer.RenderFrameAsWrittenRaises | neopixel_renderer.py:60-62 | as written, `render_frame` never reaches the pixels of a registry keyed by pins: the loop or the lookup raises |
| Renderer.NeoPixelRenderer.constructor | neopixel_renderer.py:15-21 | a renderer starts with no strip, an empty buffer and no object in its footprint |
| Renderer.NeoPixelRenderer.QueueEmpty | neopixel_renderer.py:68-69 | true exactly when the buffer has length 0 |
| Renderer.NeoPixelRenderer.QueueFrame | neopixel_renderer.py:71-75 | the buffer becomes the old buffer plus the frame, sorted by timestamp, which is the stable insertion; it changes nothing but the buffer, so what every strip shows stays |
| Renderer.NeoPixelRenderer.ClearBuffer | neopixel_renderer.py:54-57 | the buffer keeps exactly the frames of the other outputs, in order; it changes nothing but the buffer, so what every strip shows stays |
| Renderer.NeoPixelRenderer.RenderFrame | neopixel_renderer.py:59-66 | fails (the `KeyError`) exactly when the output has no strip; otherwise that strip shows its pixels painted with the frame and one more flush, and every other strip, and every other object the renderer owns, is unchanged |
| Renderer.NeoPixelRenderer.UpdateConfig | neopixel_renderer.py:23-28 | releases (deinitialises) the strip under the configuration's id if there is one, then registers a fresh, live, unlit, never-flushed strip set up as configured; the other entries, the buffer and what every other strip shows stay, and every object it owned other than the released strip is unchanged |
| Renderer.NeoPixelRenderer.Release | neopixel_renderer.py:24-26 | the strip under the key, if any, is deinitialised and unregistered; the other entries, what their strips show, the buffer and every other object it owns are unchanged |
| Renderer.NeoPixelRenderer.Register | neopixel_renderer.py:28 | the new strip is entered under a free output name: the registry gains exactly that entry, its strip and pixel buffer join the renderer's objects, and every other strip shows what it showed |
| Renderer.NeoPixelRenderer.ReleaseAll | neopixel_renderer.py:32-35 | every strip is released once, then the registry is empty |
| Renderer.NeoPixelRenderer.AcquireAll | neopixel_renderer.py:38-40 | succeeds exactly when the driver accepts every configuration; then the keys are exactly the configured pins, each with a fresh strip set up by the last configuration for it, acquired in order |
| Renderer.NeoPixelRenderer.PurgeUnconfigured | neopixel_renderer.py:43-52 | the buffer keeps exactly the frames whose output has a strip, in order |
| Renderer.NeoPixelRenderer.UpdateConfigs | neopixel_renderer.py:30-52 | every old strip is deinitialised, and released before any new one is acquired; on success the keys are exactly the configured pins, each strip fresh and set up by the last configuration for its pin, and the buffer keeps exactly the frames of configured outputs |
| Renderer.NeoPixelRenderer.RenderAll | neopixel_renderer.py:112-113 | succeeds exactly when every chosen frame's output has a strip; then each chosen frame's strip shows that frame painted and flushed once more; strips without a chosen frame do not change, also when the pass fails part-way |
| Renderer.NeoPixelRenderer.RenderQueue | neopixel_renderer.py:77-113 | the buffer becomes the frames the pass keeps; fails exactly when a rendered frame's output has no strip; otherwise each rendered frame's strip shows it, flushed once more; strips with no rendered frame do not change in either case |
| Scheduler.IsConfigList | neopixel_thread.py:45-48 | true exactly for a list whose every element is an integer or a configuration, the empty list included |
| Scheduler.AllConfigItems | neopixel_thread.py:47 | the front-to-back `all` holds exactly when every element is an integer or a configuration |
| Scheduler.ValidIdsSpec | neopixel_thread.py:36-38 | an id is applied by a configuration list exactly when some configuration in it with that id passes validation |
| Scheduler.FirstInt | neopixel_thread.py:36-38 | the index of the first integer in a configuration list (its length when there is none): no element before it is an integer |
| Scheduler.LastValidForSpec | neopixel_thread.py:36-38 | for an id, the configuration that sets it up is found exactly when the id is applied; it has that id, passes validation, sits in the list, and no later element is a valid configuration with that id |
| Scheduler.BufferAfterFrameSpec | neopixel_thread.py:60-69 | a frame stamped 0 never enters the buffer and any other frame does; a clearing frame is afterwards its output's only buffered frame; other outputs' frames are untouched; sortedness is kept |
| Scheduler.BufferAfterFrame | neopixel_thread.py:60-69 | the buffer after `_handle_new_frame`; see `BufferAfterFrameSpec` |
| Scheduler.UpdateConfig | neopixel_thread.py:50-57 | an invalid configuration leaves the renderer and every strip unchanged; a valid one deinitialises the strip under its id, if any, and registers a fresh strip set up as configured, unlit and never flushed; of the objects the renderer owned only the released strip changes, so every strip still registered under its old name keeps its liveness |
| Scheduler.UpdateConfigList | neopixel_thread.py:36-38 | applies the configurations in order; faults exactly when an element is an integer; the elements before the first integer (all of them when there is none) are applied: the registry gains exactly their valid ids, each strip set up by the last valid configuration for its id; every other entry, and what its strip shows, stays; every strip replaced is deinitialised, and of the objects the renderer owned only those strips change, so every strip still registered under its old name keeps its liveness |
| Scheduler.ApplyNext | neopixel_thread.py:36-38 | one iteration of the list loop keeps the applied-prefix description true one element further |
| Scheduler.ApplyUntilInt | neopixel_thread.py:36-38 | the list loop stops at the first integer; the elements before it are applied, each replaced strip is deinitialised, and of the renderer's objects only the strips released along the way change |
| Scheduler.ReleasedIsReleasedBy | neopixel_thread.py:36-38 | the strips released element by element are exactly the starting strips under an id that a valid configuration of the prefix applies |
| Scheduler.ReplaceStrip | neopixel_thread.py:53-55 | a valid configuration deinitialises the strip under its id, if any, and registers a fresh strip set up as configured; the other entries stay |
| Scheduler.ReplaceTracked | neopixel_thread.py:36-38 | within the list loop, replacing the strip of one more id keeps the other entries and their liveness, sets up the new strip as configured, and keeps every replaced starting strip deinitialised and outside the registry |
| Scheduler.HandleNewFrame | neopixel_thread.py:60-69 | clears the frame's output first if asked, then renders a frame stamped 0 at once (failing when its output has no strip) or queues any other frame; a queued frame changes no strip, and a frame rendered at once changes only its own output's strip |
| Scheduler.ClearTargetAsWrittenRaises | neopixel_thread.py:61-62 | as written, a frame raises `AttributeError` on `light_id` exactly when it asks to clear its output |
| Scheduler.HandlingFaults | neopixel_thread.py:34-43 | the messages whose handling raises: a configuration list holding an integer, or a frame due at once for an output with no strip |
| Scheduler.HandleMessage | neopixel_thread.py:31-40 | dispatches a configuration, a configuration list or a frame; faults exactly when `HandlingFaults` holds; a valid configuration sets up an unlit strip under its id; a configuration list (also when it faults) applies its elements before the first integer, keeps every other entry and what its strip shows, and deinitialises each strip it replaces; a frame stamped 0 paints and flushes its own strip; anything else changes no strip; the buffer is the one `BufferAfterHandling` gives; every strip still registered under its old name keeps its liveness; except for a configuration list, the `events` trail grows by exactly `HandlingEvents` (a valid configuration's release, if its id had a strip, then its acquisition; nothing for any other message) |
| Scheduler.Dispatch | neopixel_thread.py:31-40 | handling a message, as one iteration sees it: the fault condition, the buffer, the registry (`RegistryAfter`) and what the strips show (`HandledStrips`) afterwards; every strip still registered under its old name keeps its liveness (`KeepsLiveness` over `LiveOf`); except for a configuration list, the `events` trail grows by exactly `HandlingEvents` |
| Scheduler.RenderPass | neopixel_thread.py:42-43 | the render pass keeps the buffer's remaining frames and renders the chosen ones over the strips; it releases and acquires nothing, so the registry stays as handling left it |
| Scheduler.PollTimeoutMs | neopixel_thread.py:19-28 | the poll waits 1000 ms exactly when idle and 10 ms exactly when not |
| Scheduler.Step | neopixel_thread.py:24-43 | after the message is handled, `idle` becomes true exactly when no message came and nothing is buffered (and stays when handling faults); a render pass runs exactly when something is buffered and leaves the frames the pass keeps; states when the step faults, and that it faults before any render pass exactly when `HandlingFaults` holds; the registry afterwards is the one handling the message leaves (`RegistryAfter`); `mid` is what the strips show after handling (`HandledStrips`), and the render pass changes from there only the strips of the frames it renders; every strip still registered under its old name keeps its liveness (`KeepsLiveness` over `LiveOf`); except for a configuration list, the `events` trail grows by exactly `HandlingEvents`, the render pass adding nothing |

## Left out

- The database-backed configuration repository, the HTTP routes, the WebSocket and UDP servers, process start-up and logging are I/O. They are not part of this model.
- The `"ACK"` reply and the busy wait for the queue to drain (flask_server.py:67-69) are not modelled: they are transport.
- The queue, its timeout and the `Empty` exception are not modelled: the step takes the received message as a parameter.
- Wall-clock time is not modelled: `now` is a parameter in whole milliseconds, so the float arithmetic of `datetime.now().timestamp() * 1000` is absent.
- Renderer.NeoPixel: brightness is the configuration's integer percent, not the driver's float `brightness / 100`. `set_brightness` is not modelled, being float-only, so a strip's brightness is fixed when it is acquired.
- `to_json` (a `json.dumps` call) is not modelled. `Codec.SerializeList` takes the already serialised items.
- Config.FromJson: JSON values of the wrong type are not modelled. A present `id` or `pin` is a string, and a present `leds` or `brightness` an integer.
- Scheduler.Message: Python's `bool` is a subclass of `int`, so a `True` in a configuration list counts as an integer. The model has no separate boolean message.
- Renderer.NeoPixelRenderer.RenderFrame: the logging loop at neopixel_renderer.py:60-61 is left out of the corrected method. It is modelled as written by `Renderer.LogRegistryAsWritten` (see Findings).
- Renderer.ReleaseEach: the dict iteration order is left open. `released` records whichever order is taken.
- Renderer.NeoPixelRenderer.RenderQueue: `list.remove(frame)` removes the first element equal to `frame`. The model removes the frame at the cursor. The two agree because each buffered frame is a distinct object.
- Scheduler.HandleMessage: for a configuration list, what the newly set-up strips show (unlit, never flushed) is not stated; the contract states their configuration and that every other strip shows what it showed.
- Scheduler.HandleMessage: for a configuration list, the `events` trail is not stated (neither are `Dispatch`'s and `Step`'s for one); the registry, the released strips and the liveness of the others are.
- Scheduler.Step: it models one iteration. The unbounded `while True` loop is the repetition of `Step`, and after a fault the source's thread is gone.
- The datatypes store their fields as given, accept any values and validate nothing: `RgbFrame` (any pin, any timestamp including 0, any number of samples), `RgbFrameOptions` and `ValidationResult`. No lemma states this, because Dafny datatype constructors behave this way by definition.

## Findings

| source | as written | input that shows it | evidently intended | confidence | as-written member | corrected member |
|---|---|---|---|---|---|---|
| neopixel_renderer.py:24-28 | reads `config.uuid`, which configurations lack, and would pop the old entry by `config.pin` | any configuration, e.g. id `"a"`, pin `"D10"`, 30 LEDs, brightness 50 | release the strip registered under the configuration's id, then register the new one under that id | high (not executed) | Renderer.UpdateConfigAsWrittenRaises | Renderer.NeoPixelRenderer.UpdateConfig |
| neopixel_renderer.py:60-61 | `for pin, np in self.neopixels` iterates keys and unpacks each key string into two names | a registry built by `update_configs`, keyed by `"D10"`: unpacking a 3-character key raises `ValueError` | iterate `self.neopixels.items()` for logging, then paint the frame | high (not executed) | Renderer.RenderFrameAsWrittenRaises | Renderer.NeoPixelRenderer.RenderFrame |
| neopixel_thread.py:62 | clears `frame.light_id`, which frames lack | any frame with `clear_buffer` set | clear the frame's `pin` | high (not executed) | Scheduler.ClearTargetAsWrittenRaises | Scheduler.HandleNewFrame |
