/** The effect loop of VirtualBgClass: the run state (isAnimate, animationId,
    effectType), the four effect handlers that draw one frame and re-arm
    themselves, factoryEffect and restartEffect. The browser's animation-frame
    callbacks and timers are modelled by the Window class; the segmentation
    and drawing calls of the body-pix library are replaced by events and by
    the byte buffers they would produce. */
module VirtualBg {
  import opened Compositor

  /** Canvas and video size fixed by the class. */
  const VIDEO_WIDTH: nat := 1280
  const VIDEO_HEIGHT: nat := 720

  /** The effect type the class starts with. */
  const INITIAL_EFFECT_TYPE: string := "bokeh"

  datatype Option<T> = None | Some(value: T)

  /** The four effect handlers a frame callback can run. */
  datatype Handler = Off | Bokeh | Color | BgImage

  /** The handlers that await a segmentation before drawing. */
  predicate Segments(h: Handler) {
    h != Off
  }

  /** The effect-type string that selects each handler. */
  function EffectName(h: Handler): string {
    match h
    case Off => "off"
    case Color => "color"
    case BgImage => "image"
    case Bokeh => "bokeh"
  }

  /** factoryEffect's dispatch: exactly one handler for each of the four
      known type strings, none for any other string. */
  function HandlerFor(effectType: string): (h: Option<Handler>)
    ensures h.Some? <==>
      effectType == "off" || effectType == "color" || effectType == "image" || effectType == "bokeh"
    ensures h.Some? ==> EffectName(h.value) == effectType
  {
    if effectType == "off" then Some(Off)
    else if effectType == "color" then Some(Color)
    else if effectType == "image" then Some(BgImage)
    else if effectType == "bokeh" then Some(Bokeh)
    else None
  }

  /** Every handler is selected by its own name and by no other. */
  lemma HandlerForName(h: Handler, effectType: string)
    ensures HandlerFor(EffectName(h)) == Some(h)
    ensures HandlerFor(effectType) == Some(h) <==> effectType == EffectName(h)
  {
  }

  /** The browser side: the map of pending animation-frame callbacks by
      handle, the next handle requestAnimationFrame returns, and the pending
      setTimeout callbacks (each of which calls factoryEffect with the
      effect type current when it fires). */
  class Window {
    var callbacks: map<int, Handler>
    var nextHandle: int
    var timeouts: nat

    /** Handles are positive and handed out in increasing order. */
    ghost predicate Valid()
      reads this
    {
      1 <= nextHandle && forall id :: id in callbacks ==> 1 <= id < nextHandle
    }

    constructor()
      ensures Valid()
      ensures callbacks == map[] && nextHandle == 1 && timeouts == 0
    {
      callbacks, nextHandle, timeouts := map[], 1, 0;
    }

    /** Registers h for the next frame under a handle no pending callback has. */
    method RequestAnimationFrame(h: Handler) returns (id: int)
      requires Valid()
      modifies this
      ensures Valid()
      ensures id == old(nextHandle) && 1 <= id && id !in old(callbacks)
      ensures callbacks == old(callbacks)[id := h] && nextHandle == id + 1
      ensures timeouts == old(timeouts)
    {
      id := nextHandle;
      callbacks := callbacks[id := h];
      nextHandle := nextHandle + 1;
    }

    /** Drops the callback registered under id, if any; any other id is ignored. */
    method CancelAnimationFrame(id: int)
      requires Valid()
      modifies this
      ensures Valid()
      ensures callbacks == old(callbacks) - {id}
      ensures nextHandle == old(nextHandle) && timeouts == old(timeouts)
    {
      callbacks := callbacks - {id};
    }

    /** The browser takes the pending callback id off the map to run it. */
    method TakeCallback(id: int) returns (h: Handler)
      requires Valid() && id in callbacks
      modifies this
      ensures Valid()
      ensures h == old(callbacks)[id] && callbacks == old(callbacks) - {id}
      ensures nextHandle == old(nextHandle) && timeouts == old(timeouts)
    {
      h := callbacks[id];
      callbacks := callbacks - {id};
    }

    /** Schedules one more delayed restart. */
    method SetTimeout()
      modifies this
      ensures callbacks == old(callbacks) && nextHandle == old(nextHandle)
      ensures timeouts == old(timeouts) + 1
    {
      timeouts := timeouts + 1;
    }

    /** The browser takes one pending delayed restart to run it. */
    method TakeTimeout()
      requires timeouts > 0
      modifies this
      ensures callbacks == old(callbacks) && nextHandle == old(nextHandle)
      ensures timeouts == old(timeouts) - 1
    {
      timeouts := timeouts - 1;
    }
  }

  class VirtualBgClass {
    var animationId: int
    var isAnimate: bool
    var effectType: string
    const window: Window
    /** Handler calls suspended at `await segmentPerson`. */
    var segmenting: multiset<Handler>
    /** The frames drawn on the main canvas, oldest first, by the handler
        that drew each. */
    var drawn: seq<Handler>

    ghost predicate Valid()
      reads this, window
    {
      window.Valid() && forall h :: h in segmenting ==> Segments(h)
    }

    /** Work the loop may still do without being restarted: each pending
        callback can run a handler and then finish a segmentation. */
    ghost function Outstanding(): nat
      reads this, window
    {
      2 * |window.callbacks| + |segmenting|
    }

    /** The state after `if (this.isAnimate) this.animationId =
        requestAnimationFrame(h)`, from callbacks cbs, stored id and next
        handle n. */
    ghost predicate RearmedFrom(h: Handler, cbs: map<int, Handler>, id: int, n: int)
      reads this, window
    {
      if isAnimate then
        window.callbacks == cbs[n := h] && animationId == n && window.nextHandle == n + 1
      else
        window.callbacks == cbs && animationId == id && window.nextHandle == n
    }

    /** The state after calling handler h once, up to its first suspension,
        from callbacks cbs, stored id, next handle n, suspended calls seg and
        drawn frames log: offEffect draws and re-arms; the other three start
        a segmentation and return. */
    ghost predicate InvokedFrom(h: Handler, cbs: map<int, Handler>, id: int, n: int,
                                seg: multiset<Handler>, log: seq<Handler>)
      reads this, window
    {
      if h == Off then
        drawn == log + [Off] && segmenting == seg && RearmedFrom(Off, cbs, id, n)
      else
        drawn == log && segmenting == seg + multiset{h}
        && window.callbacks == cbs && animationId == id && window.nextHandle == n
    }

    /** Creates the object in its initial, idle state; startVideo, which
        the constructor launches, ends in StartVideoDone. */
    constructor(w: Window)
      requires w.Valid()
      ensures Valid() && window == w
      ensures !isAnimate && animationId == 0 && effectType == INITIAL_EFFECT_TYPE
      ensures segmenting == multiset{} && drawn == []
    {
      window := w;
      animationId := 0;
      isAnimate := false;
      effectType := INITIAL_EFFECT_TYPE;
      segmenting := multiset{};
      drawn := [];
    }

    /** The end of startVideo: once the segmentation model has loaded, the
        effect loop starts with the current effect type; if it did not load,
        nothing starts. */
    method StartVideoDone(netReady: bool)
      requires Valid()
      modifies this, window
      ensures Valid()
      ensures effectType == old(effectType) && window.timeouts == old(window.timeouts)
      ensures !netReady ==>
        && isAnimate == old(isAnimate) && animationId == old(animationId)
        && window.callbacks == old(window.callbacks) && window.nextHandle == old(window.nextHandle)
        && segmenting == old(segmenting) && drawn == old(drawn)
      ensures netReady ==> isAnimate && StartedFrom(old(effectType), old(window.callbacks), old(animationId),
                                                    old(window.nextHandle), old(segmenting), old(drawn))
    {
      if netReady {
        FactoryEffect(effectType);
      }
    }

    /** The state factoryEffect(t) leaves: for a known type, one callback
        for the handler registered under handle n and the handler invoked
        once; for an unknown type, nothing changed but the flag. */
    ghost predicate StartedFrom(t: string, cbs: map<int, Handler>, id: int, n: int,
                                seg: multiset<Handler>, log: seq<Handler>)
      reads this, window
    {
      match HandlerFor(t)
      case None =>
        window.callbacks == cbs && animationId == id && window.nextHandle == n
        && segmenting == seg && drawn == log
      case Some(h) =>
        InvokedFrom(h, cbs[n := h], n, n + 1, seg, log)
    }

    /** factoryEffect: sets isAnimate and hands the handler selected by the
        type string to effectCallback; an unknown type starts no handler but
        still leaves isAnimate set. */
    method FactoryEffect(t: string)
      requires Valid()
      modifies this, window
      ensures Valid()
      ensures isAnimate
      ensures effectType == old(effectType) && window.timeouts == old(window.timeouts)
      ensures StartedFrom(t, old(window.callbacks), old(animationId), old(window.nextHandle),
                          old(segmenting), old(drawn))
    {
      isAnimate := true;
      match HandlerFor(t)
      case None =>
      case Some(h) =>
        EffectCallback(h);
    }

    /** effectCallback: registers h for the next frame, stores the handle,
        and also runs h at once. */
    method EffectCallback(h: Handler)
      requires Valid()
      modifies this, window
      ensures Valid()
      ensures isAnimate == old(isAnimate) && effectType == old(effectType)
      ensures window.timeouts == old(window.timeouts)
      ensures InvokedFrom(h, old(window.callbacks)[old(window.nextHandle) := h], old(window.nextHandle),
                          old(window.nextHandle) + 1, old(segmenting), old(drawn))
    {
      animationId := window.RequestAnimationFrame(h);
      Invoke(h);
    }

    /** Calling the handler h, up to its first suspension. */
    method Invoke(h: Handler)
      requires Valid()
      modifies this, window
      ensures Valid()
      ensures isAnimate == old(isAnimate) && effectType == old(effectType)
      ensures window.timeouts == old(window.timeouts)
      ensures InvokedFrom(h, old(window.callbacks), old(animationId), old(window.nextHandle),
                          old(segmenting), old(drawn))
    {
      match h
      case Off =>
        OffEffect();
      case _ =>
        segmenting := segmenting + multiset{h};
    }

    /** `if (this.isAnimate) this.animationId = requestAnimationFrame(h)`:
        the guard every handler ends with. */
    method Rearm(h: Handler)
      requires Valid()
      modifies this, window
      ensures Valid()
      ensures isAnimate == old(isAnimate) && effectType == old(effectType)
      ensures segmenting == old(segmenting) && drawn == old(drawn)
      ensures window.timeouts == old(window.timeouts)
      ensures RearmedFrom(h, old(window.callbacks), old(animationId), old(window.nextHandle))
    {
      if isAnimate {
        animationId := window.RequestAnimationFrame(h);
      }
    }

    /** offEffect: draws the camera frame, then re-arms only if isAnimate. */
    method OffEffect()
      requires Valid()
      modifies this, window
      ensures Valid()
      ensures isAnimate == old(isAnimate) && effectType == old(effectType)
      ensures window.timeouts == old(window.timeouts)
      ensures drawn == old(drawn) + [Off] && segmenting == old(segmenting)
      ensures RearmedFrom(Off, old(window.callbacks), old(animationId), old(window.nextHandle))
    {
      drawn := drawn + [Off];
      Rearm(Off);
    }

    /** The rest of bokehEffect or colorEffect once its segmentation
        resolves: the library draws the blurred or colour-masked frame, then
        the handler re-arms only if isAnimate. */
    method SegmentationResolved(h: Handler)
      requires Valid()
      requires h == Bokeh || h == Color
      requires h in segmenting
      modifies this, window
      ensures Valid()
      ensures isAnimate == old(isAnimate) && effectType == old(effectType)
      ensures window.timeouts == old(window.timeouts)
      ensures segmenting == old(segmenting) - multiset{h} && drawn == old(drawn) + [h]
      ensures RearmedFrom(h, old(window.callbacks), old(animationId), old(window.nextHandle))
      ensures !isAnimate ==> Outstanding() < old(Outstanding())
      ensures !isAnimate ==> |drawn| - old(|drawn|) <= old(Outstanding()) - Outstanding()
    {
      segmenting := segmenting - multiset{h};
      drawn := drawn + [h];
      Rearm(h);
    }

    /** The rest of bgImageEffect once its segmentation resolves:
        drawReplaceBgImage composites the camera frame with the background
        buffer under the person mask, then the handler re-arms only if
        isAnimate. */
    method BgImageSegmentationResolved(frame: array<byte>, bg: array<byte>, mask: array<int>)
      requires Valid()
      requires BgImage in segmenting
      requires mask.Length == VIDEO_WIDTH * VIDEO_HEIGHT
      requires frame.Length == 4 * mask.Length && bg.Length == frame.Length
      requires frame != bg
      modifies this, window, frame
      ensures Valid()
      ensures frame[..] == Replaced(old(frame[..]), bg[..], mask[..])
      ensures isAnimate == old(isAnimate) && effectType == old(effectType)
      ensures window.timeouts == old(window.timeouts)
      ensures segmenting == old(segmenting) - multiset{BgImage}
      ensures drawn == old(drawn) + [BgImage]
      ensures RearmedFrom(BgImage, old(window.callbacks), old(animationId), old(window.nextHandle))
      ensures !isAnimate ==> Outstanding() < old(Outstanding())
      ensures !isAnimate ==> |drawn| - old(|drawn|) <= old(Outstanding()) - Outstanding()
    {
      segmenting := segmenting - multiset{BgImage};
      DrawReplaceBgImage(frame, bg, mask, VIDEO_WIDTH, VIDEO_HEIGHT);
      drawn := drawn + [BgImage];
      Rearm(BgImage);
    }

    /** A segmentation that rejects ends its handler call: nothing is drawn
        and nothing is re-armed. */
    method SegmentationRejected(h: Handler)
      requires Valid()
      requires h in segmenting
      modifies this
      ensures Valid()
      ensures isAnimate == old(isAnimate) && effectType == old(effectType) && animationId == old(animationId)
      ensures segmenting == old(segmenting) - multiset{h} && drawn == old(drawn)
      ensures Outstanding() < old(Outstanding())
    {
      segmenting := segmenting - multiset{h};
    }

    /** The browser runs the pending animation-frame callback id. */
    method FireAnimationFrame(id: int)
      requires Valid()
      requires id in window.callbacks
      modifies this, window
      ensures Valid()
      ensures isAnimate == old(isAnimate) && effectType == old(effectType)
      ensures window.timeouts == old(window.timeouts)
      ensures InvokedFrom(old(window.callbacks)[id], old(window.callbacks) - {id}, old(animationId),
                          old(window.nextHandle), old(segmenting), old(drawn))
      ensures !isAnimate ==> Outstanding() < old(Outstanding())
      ensures !isAnimate ==> |drawn| - old(|drawn|) <= old(Outstanding()) - Outstanding()
    {
      var h := window.TakeCallback(id);
      Invoke(h);
    }

    /** restartEffect: clears isAnimate, cancels only the stored handle, and
        schedules a delayed factoryEffect with the then-current effect type. */
    method RestartEffect()
      requires Valid()
      modifies this, window
      ensures Valid()
      ensures !isAnimate
      ensures animationId == old(animationId) && effectType == old(effectType)
      ensures window.callbacks == old(window.callbacks) - {old(animationId)}
      ensures window.nextHandle == old(window.nextHandle)
      ensures window.timeouts == old(window.timeouts) + 1
      ensures segmenting == old(segmenting) && drawn == old(drawn)
      ensures Outstanding() <= old(Outstanding())
    {
      isAnimate := false;
      window.CancelAnimationFrame(animationId);
      window.SetTimeout();
    }

    /** The delayed restart fires: factoryEffect with the effect type current
        at this moment. */
    method FireTimeout()
      requires Valid()
      requires window.timeouts > 0
      modifies this, window
      ensures Valid()
      ensures isAnimate
      ensures effectType == old(effectType) && window.timeouts == old(window.timeouts) - 1
      ensures StartedFrom(old(effectType), old(window.callbacks), old(animationId), old(window.nextHandle),
                          old(segmenting), old(drawn))
    {
      window.TakeTimeout();
      FactoryEffect(effectType);
    }
  }
}
