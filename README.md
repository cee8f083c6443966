# Virtual background effect loop, modelled in Dafny

This project models the core of `VirtualBgClass` (`src/virtual_bg.ts`), a browser demo. The demo replaces the background of a webcam feed using a person-segmentation model.

- **The compositor** (`compositor.dfy`, module `Compositor`) covers `drawReplaceBgImage`. It walks a width × height person mask in row-major order. For every pixel whose mask value is not exactly 1, it copies the pixel's four RGBA bytes from the background buffer into the frame buffer, in place.
  - The method `DrawReplaceBgImage` keeps the source's nested `y`/`x` loops over `array<byte>`. Its contract equates the new frame with `Replaced`, a pixel-by-pixel reference definition.
  - Lemmas give the per-pixel rule, the bounds of the index arithmetic and idempotence.
- **The effect loop** (`virtual_bg.dfy`, module `VirtualBg`) covers the class's run state: `isAnimate`, `animationId` and `effectType`.
  - It models `factoryEffect`, `effectCallback`, the four effect handlers, `restartEffect` and the end of `startVideo`.
  - The browser's part is the class `Window`. It holds the map of pending animation-frame callbacks by handle, the handle counter and the pending `setTimeout` restarts.
  - The three handlers that await `segmentPerson` (bokeh, colour, image) are split at the `await`. The synchronous part records a suspended call in `segmenting`. A later event either resumes the call (draw one frame, then re-arm only if `isAnimate`) or rejects it (nothing is drawn or re-armed).
  - Each drawn frame is appended to `drawn`.
- **Event sequences** (`scenarios.dfy`, module `EffectLoopScenarios`) start from a fresh page. Their results are proved from the class contracts alone.

What the code does, as the model captures it:

- **Stale frames after a restart.** `effectCallback` registers the handler *and* runs it at once, and that run re-arms itself. So the "off" effect has two callbacks pending, and `restartEffect` cancels only the stored one (`StartOff`, `RestartOff`). The other callback still draws one frame, and so does every segmentation in flight. The model bounds these stale frames: while `isAnimate` is false, every event lowers `Outstanding()` (twice the pending callbacks plus the suspended segmentations) by at least the number of frames it draws.
- **The 100 ms delay does not always stop the old loop.** The comment at `src/virtual_bg.ts:160` says the delay waits for the animation frame to stop. But a segmentation that is still pending when the delayed restart fires finds `isAnimate` set again, and it re-arms the old loop (`SlowSegmentationOutlivesRestart`).
- **Two restarts start two loops.** Each click on an effect button calls `restartEffect`, and each call schedules its own delayed `factoryEffect`. Two clicks within 100 ms therefore start two loops side by side (`RestartTwice`). `restartEffect` itself never adds outstanding work.
- **Inferences can overlap.** Nothing in the code waits for one `segmentPerson` call before starting the next. The double start of `effectCallback` puts two segmentations in flight at once (`TwoSegmentationsInFlight`).
- **The background image is stretched.** `drawReplaceBgImage` draws the background image at the canvas size, with no cover-fit scaling or centring.

## Model

| member | source | states |
|---|---|---|
| `Compositor.Replaced` | src/virtual_bg.ts:142-153 | The composited frame has the length of the frame buffer; it is defined pixel by pixel as the frame's four bytes for a person pixel and the background's four bytes otherwise |
| `Compositor.ReplacedPixel` | src/virtual_bg.ts:144-151 | For every pixel p, bytes 4p..4p+3 of the result equal the frame's bytes when mask[p] is exactly 1 and the background's bytes (alpha included) for any other mask value |
| `Compositor.ReplacedAt` | src/virtual_bg.ts:146-150 | Byte i of the result is the background's byte i or the frame's byte i, according to the mask entry of pixel i / 4 |
| `Compositor.ReplacedIdempotent` | src/virtual_bg.ts:146-151 | Replacing twice with the same mask and background gives the same frame as replacing once |
| `Compositor.ReplacedAllPerson` | src/virtual_bg.ts:146 | A mask that marks every pixel as a person leaves the frame unchanged |
| `Compositor.ReplacedNoPerson` | src/virtual_bg.ts:146-150 | A mask with no entry equal to 1, whatever other values it holds, yields exactly the background buffer |
| `Compositor.PixelIndexInBounds` | src/virtual_bg.ts:142-145 | For 0 <= y < height and 0 <= x < width, segbase = y*width + x lies below width*height, and base = segbase*4 satisfies base + 3 < 4*width*height |
| `Compositor.DrawReplaceBgImage` | src/virtual_bg.ts:137-155 | In place and in row-major order, the new frame equals Replaced of the old frame. Background pixels now hold the background buffer's four bytes. Person pixels keep their old four bytes. Only the frame buffer changes |
| `VirtualBg.HandlerFor` | src/virtual_bg.ts:80-88 | Exactly the four strings "off", "color", "image", "bokeh" select a handler, each the handler of that name; any other string selects none |
| `VirtualBg.HandlerForName` | src/virtual_bg.ts:80-88 | Each handler is selected by its own name and by no other string |
| `VirtualBg.VirtualBgClass.constructor` | src/virtual_bg.ts:35-42 | A new object is idle: isAnimate false, no stored handle (0), effect type "bokeh", nothing suspended and nothing drawn |
| `VirtualBg.VirtualBgClass.StartVideoDone` | src/virtual_bg.ts:71-75 | If the model did not load, nothing changes. Otherwise the loop starts as factoryEffect does, with the current effect type |
| `VirtualBg.VirtualBgClass.FactoryEffect` | src/virtual_bg.ts:78-89 | isAnimate is always set. A known type registers its handler under a fresh handle and invokes it once. An unknown type registers nothing, draws nothing and stores no handle |
| `VirtualBg.VirtualBgClass.EffectCallback` | src/virtual_bg.ts:91-94 | The handler is registered under the next handle, that handle is stored, and the handler is invoked once at once. For offEffect under isAnimate this leaves two pending callbacks with the second handle stored |
| `VirtualBg.VirtualBgClass.Rearm` | src/virtual_bg.ts:98-100 | A new callback for the handler is registered and its handle stored if and only if isAnimate holds; otherwise callbacks and stored handle are unchanged |
| `VirtualBg.VirtualBgClass.OffEffect` | src/virtual_bg.ts:96-101 | Draws one frame, then re-arms offEffect only if isAnimate |
| `VirtualBg.VirtualBgClass.SegmentationResolved` | src/virtual_bg.ts:103-119 | A suspended bokeh or colour call resumes: it draws one frame, leaves the suspended set, and re-arms only if isAnimate. With isAnimate cleared, the outstanding work strictly drops |
| `VirtualBg.VirtualBgClass.BgImageSegmentationResolved` | src/virtual_bg.ts:129-135 | A suspended image call resumes: the frame buffer becomes Replaced of the old frame over the 1280x720 mask, one frame is drawn, and the handler re-arms only if isAnimate |
| `VirtualBg.VirtualBgClass.SegmentationRejected` | src/virtual_bg.ts:130 | A rejected segmentation ends its call: nothing is drawn, nothing re-armed, the stored handle is kept |
| `VirtualBg.VirtualBgClass.FireAnimationFrame` | src/virtual_bg.ts:99 | A pending callback leaves the map and its handler is invoked once. With isAnimate cleared it arms nothing, the outstanding work strictly drops, and the frames it draws are bounded by that drop |
| `VirtualBg.VirtualBgClass.RestartEffect` | src/virtual_bg.ts:157-161 | isAnimate is cleared, only the stored handle is removed from the pending callbacks, and one delayed restart is added; nothing else changes, and the outstanding work never grows |
| `VirtualBg.VirtualBgClass.FireTimeout` | src/virtual_bg.ts:161 | A delayed restart is used up and factoryEffect runs with the effect type current at that moment |
| `EffectLoopScenarios.StartOff` | src/virtual_bg.ts:91-100 | Starting "off" leaves callbacks 1 and 2 pending, handle 2 stored and one frame drawn |
| `EffectLoopScenarios.RestartOff` | src/virtual_bg.ts:157-159 | After starting "off" and restarting, callback 1 is still pending; when it fires it draws a second frame and leaves nothing pending |
| `EffectLoopScenarios.RestartWithNewType` | src/virtual_bg.ts:161 | The delayed restart starts the effect type assigned after restartEffect, here "color" under handle 3 |
| `EffectLoopScenarios.RestartTwice` | src/virtual_bg.ts:157-161 | Two restarts before either delay ends schedule two delayed restarts; when both fire, two "bokeh" callbacks (handles 1 and 2) are pending and two segmentations are in flight |
| `EffectLoopScenarios.SlowSegmentationOutlivesRestart` | src/virtual_bg.ts:106-110 | A bokeh segmentation that resolves after the delayed restart re-arms, leaving two callback chains (handles 2 and 3) |
| `EffectLoopScenarios.TwoSegmentationsInFlight` | src/virtual_bg.ts:91-94 | After starting "bokeh", the registered callback firing before the first segmentation resolves leaves two bokeh segmentations in flight |
| `EffectLoopScenarios.StartUnknownType` | src/virtual_bg.ts:78-89 | Starting an unknown effect type sets isAnimate but registers no callback and draws nothing |

## Left out

- Segmentation and drawing by the body-pix library are not modelled:
  - `segmentPerson` becomes the events `SegmentationResolved`, `BgImageSegmentationResolved` and `SegmentationRejected`. Its result is the mask array given to the image effect.
  - `drawBokehEffect`, `toMask` and `drawMask` appear only as one entry in `drawn`. The colour blending happens inside `drawMask`.
  - `bodyPix.load` becomes the flag given to `StartVideoDone`.
- Canvas and video I/O (`drawImage`, `getImageData`, `putImageData`, `getUserMedia`, `video.play`, `tf.getBackend`) are not modelled. The frame and background buffers are given as byte arrays, and the stretching of the background image to the canvas size is not modelled.
- `console.warn` when the model is missing is not modelled; that path only returns.
- Timing is not modelled: neither the 100 ms delay nor the display refresh rate. The browser's callbacks and the delayed restart fire in any order the environment picks, one callback per event. Real browsers run all of a frame's callbacks together, and that is one of the orders allowed here.
- Only one object per `Window` is modelled. Pending callbacks carry a handler but not the object it belongs to.
- `src/option.ts` (configuration constants and a type) and `src/index.ts` (page wiring) are not part of this model.
- `Compositor.DrawReplaceBgImage`: the mask is taken as aligned pixel for pixel with the frame. The code requests the segmentation horizontally flipped (`flipHorizontal`, `src/virtual_bg.ts:10`, `24-31`, `130`) but draws the frame unflipped (`138`); the bokeh and colour paths pass `flipHorizontal` to their draw calls (`107`, `126`). Whether the library's mask then lines up with the frame is outside this model.
- `Compositor.DrawReplaceBgImage`: the width and height are parameters. The class fixes them at 1280 × 720, and `BgImageSegmentationResolved` passes those values.
- Mask entries are unbounded integers, not the library's typed-array elements. Only the comparison with 1 matters.
