/** Event sequences of the effect loop from a fresh page, proved from the contracts of
    VirtualBgClass and Window alone. They show what the loop does when it is
    started, restarted and left with a segmentation still running. */
module EffectLoopScenarios {
  import opened VirtualBg

  /** Starting the "off" effect: effectCallback registers offEffect and also
      runs it at once, and that run re-arms itself, so two callbacks are
      pending and the stored handle is the second one. */
  method StartOff() returns (pending: set<int>, stored: int, frames: seq<Handler>)
    ensures pending == {1, 2} && stored == 2
    ensures frames == [Off]
  {
    var w := new Window();
    var v := new VirtualBgClass(w);
    v.FactoryEffect("off");
    pending, stored, frames := w.callbacks.Keys, v.animationId, v.drawn;
  }

  /** Restarting the "off" effect cancels only the stored handle; the other
      callback stays pending, still draws one frame when it fires, and does
      not re-arm. */
  method RestartOff() returns (afterRestart: set<int>, afterStale: set<int>, frames: seq<Handler>)
    ensures afterRestart == {1}
    ensures afterStale == {}
    ensures frames == [Off, Off]
  {
    var w := new Window();
    var v := new VirtualBgClass(w);
    v.FactoryEffect("off");
    assert w.callbacks == map[1 := Off, 2 := Off] && v.animationId == 2;
    v.RestartEffect();
    assert w.callbacks == map[1 := Off];
    afterRestart := w.callbacks.Keys;
    v.FireAnimationFrame(1);
    afterStale, frames := w.callbacks.Keys, v.drawn;
  }

  /** The delayed restart runs factoryEffect with the effect type set after
      restartEffect was called, and starts that effect's loop. */
  method RestartWithNewType() returns (pending: map<int, Handler>, segmentations: multiset<Handler>)
    ensures pending == map[3 := Color]
    ensures segmentations == multiset{Color}
  {
    var w := new Window();
    var v := new VirtualBgClass(w);
    v.FactoryEffect("off");
    v.RestartEffect();
    v.FireAnimationFrame(1);
    assert w.callbacks == map[] && w.nextHandle == 3;
    v.effectType := "color";
    v.FireTimeout();
    pending, segmentations := w.callbacks, v.segmenting;
  }

  /** restartEffect called twice before the delay ends (two quick clicks on
      the effect buttons) schedules two delayed restarts. Each of them calls
      factoryEffect and starts its own "bokeh" loop, so two loops run side
      by side, each with its own registered callback and its own
      segmentation in flight. */
  method RestartTwice() returns (pending: map<int, Handler>, segmentations: multiset<Handler>)
    ensures pending == map[1 := Bokeh, 2 := Bokeh]
    ensures segmentations == multiset{Bokeh, Bokeh}
  {
    var w := new Window();
    var v := new VirtualBgClass(w);
    v.RestartEffect();
    v.RestartEffect();
    assert w.callbacks == map[] && w.nextHandle == 1 && w.timeouts == 2;
    v.FireTimeout();
    assert w.callbacks == map[1 := Bokeh] && v.segmenting == multiset{Bokeh};
    v.FireTimeout();
    pending, segmentations := w.callbacks, v.segmenting;
  }

  /** A segmentation still running when the delayed restart fires finds
      isAnimate set again and re-arms the old loop, so two callback chains
      run side by side after the restart. */
  method SlowSegmentationOutlivesRestart() returns (pending: set<int>, segmentations: multiset<Handler>)
    ensures pending == {2, 3}
    ensures segmentations == multiset{Bokeh}
  {
    var w := new Window();
    var v := new VirtualBgClass(w);
    v.StartVideoDone(true);
    assert w.callbacks == map[1 := Bokeh] && v.segmenting == multiset{Bokeh};
    v.RestartEffect();
    assert w.callbacks == map[];
    v.FireTimeout();
    assert w.callbacks == map[2 := Bokeh] && v.segmenting == multiset{Bokeh, Bokeh};
    v.SegmentationResolved(Bokeh);
    pending, segmentations := w.callbacks.Keys, v.segmenting;
  }

  /** Starting the "bokeh" effect and then letting its registered callback
      fire before the first segmentation resolves leaves two segmentations
      in flight at once. */
  method TwoSegmentationsInFlight() returns (segmentations: multiset<Handler>, pending: set<int>)
    ensures segmentations == multiset{Bokeh, Bokeh}
    ensures pending == {}
  {
    var w := new Window();
    var v := new VirtualBgClass(w);
    v.StartVideoDone(true);
    v.FireAnimationFrame(1);
    segmentations, pending := v.segmenting, w.callbacks.Keys;
  }

  /** An effect type that names none of the four effects sets isAnimate but
      registers no callback and draws nothing. */
  method StartUnknownType() returns (animating: bool, pending: set<int>, frames: seq<Handler>)
    ensures animating && pending == {} && frames == []
  {
    var w := new Window();
    var v := new VirtualBgClass(w);
    v.effectType := "blur";
    v.StartVideoDone(true);
    animating, pending, frames := v.isAnimate, w.callbacks.Keys, v.drawn;
  }
}
