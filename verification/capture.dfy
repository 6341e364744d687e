/**
 * The local capture pipeline: which source local video is started from,
 * and the two demo filters (CPU and GPU), which are never on together.
 */
module Capture {
  import opened Engine

  datatype CaptureFlags = CaptureFlags(
    isUsingCameraCaptureSource: bool,
    isUsingCpuVideoProcessor: bool,
    isUsingGpuVideoProcessor: bool,
    isLocalVideoStarted: bool)

  /** New flags and the engine calls made on the way. */
  datatype CaptureStep = CaptureStep(flags: CaptureFlags, trace: seq<Command>)

  /** The flags of a fresh meeting: the app's own camera source, no filter, video off. */
  const InitialFlags := CaptureFlags(true, false, false, false)

  predicate FiltersExclusive(f: CaptureFlags)
  {
    !(f.isUsingCpuVideoProcessor && f.isUsingGpuVideoProcessor)
  }

  predicate IsProcessor(v: VideoSource)
  {
    v == CpuVideoProcessor || v == GpuVideoProcessor
  }

  /**
   * The source local video starts from: the GPU filter wins over the CPU
   * filter, which wins over the bare camera source; without the app's camera
   * source the engine's default source is used.
   */
  function SelectedSource(f: CaptureFlags): (v: VideoSource)
    ensures v == DefaultSource <==> !f.isUsingCameraCaptureSource
    ensures v == GpuVideoProcessor <==> f.isUsingCameraCaptureSource && f.isUsingGpuVideoProcessor
    ensures v == CpuVideoProcessor <==>
              f.isUsingCameraCaptureSource && f.isUsingCpuVideoProcessor && !f.isUsingGpuVideoProcessor
  {
    if !f.isUsingCameraCaptureSource then DefaultSource
    else if f.isUsingGpuVideoProcessor then GpuVideoProcessor
    else if f.isUsingCpuVideoProcessor then CpuVideoProcessor
    else CameraCaptureSource
  }

  /**
   * Starts local video. Exactly one start call is made, from the selected
   * source; a filter is first added as a sink of the camera; the camera
   * capture is started whenever the app's camera source is in use.
   */
  function StartLocal(f: CaptureFlags): (r: CaptureStep)
    ensures r.flags == f.(isLocalVideoStarted := true)
    ensures var v := SelectedSource(f);
            && StartLocalVideo(v) in r.trace
            && (forall c :: c in r.trace && c.StartLocalVideo? ==> c == StartLocalVideo(v))
            && (forall c :: c in r.trace && c.AddVideoSink? ==> c == AddVideoSink(v) && IsProcessor(v))
            && (IsProcessor(v) ==> r.trace[0] == AddVideoSink(v))
    ensures var v := SelectedSource(f);
            r.trace == (if IsProcessor(v) then [AddVideoSink(v)] else []) + [StartLocalVideo(v)]
                       + (if f.isUsingCameraCaptureSource then [StartCameraCapture] else [])
    ensures StartCameraCapture in r.trace <==> f.isUsingCameraCaptureSource
    ensures StopCameraCapture !in r.trace && StopLocalVideo !in r.trace
  {
    var started := f.(isLocalVideoStarted := true);
    if f.isUsingCameraCaptureSource then
      var v := SelectedSource(f);
      var sink := if IsProcessor(v) then [AddVideoSink(v)] else [];
      CaptureStep(started, sink + [StartLocalVideo(v), StartCameraCapture])
    else
      CaptureStep(started, [StartLocalVideo(DefaultSource)])
  }

  /** Stops local video: the camera capture first when in use, then the engine. */
  function StopLocal(f: CaptureFlags): (r: CaptureStep)
    ensures r.flags == f.(isLocalVideoStarted := false)
    ensures |r.trace| >= 1 && r.trace[|r.trace| - 1] == StopLocalVideo
    ensures StopCameraCapture in r.trace <==> f.isUsingCameraCaptureSource
    ensures forall c :: c in r.trace ==> c == StopLocalVideo || c == StopCameraCapture
    ensures r.trace == (if f.isUsingCameraCaptureSource then [StopCameraCapture] else []) + [StopLocalVideo]
  {
    var stopped := f.(isLocalVideoStarted := false);
    var camera := if f.isUsingCameraCaptureSource then [StopCameraCapture] else [];
    CaptureStep(stopped, camera + [StopLocalVideo])
  }

  /**
   * Toggles one demo filter (`gpu` picks which). Refused with a notice and no
   * change when the app's camera source is not in use or the other filter is
   * on; otherwise the filter flips and, if local video is running, local
   * video is started again through the new source.
   */
  function ToggleFilter(f: CaptureFlags, gpu: bool): (r: CaptureStep)
    ensures var other := if gpu then f.isUsingCpuVideoProcessor else f.isUsingGpuVideoProcessor;
            && (!f.isUsingCameraCaptureSource ==>
                  r == CaptureStep(f, [ShowNotice(FilterNeedsCameraCaptureSource)]))
            && (f.isUsingCameraCaptureSource && other ==>
                  r == CaptureStep(f, [ShowNotice(FilterBothEnabled)]))
            && (f.isUsingCameraCaptureSource && !other ==>
                  && r.flags.isUsingCameraCaptureSource && r.flags.isLocalVideoStarted == f.isLocalVideoStarted
                  && r.flags.isUsingGpuVideoProcessor == (f.isUsingGpuVideoProcessor != gpu)
                  && r.flags.isUsingCpuVideoProcessor == (f.isUsingCpuVideoProcessor != !gpu)
                  && (forall c :: c in r.trace ==> !c.ShowNotice?)
                  && (r.trace != [] <==> f.isLocalVideoStarted)
                  && (f.isLocalVideoStarted ==> StartLocalVideo(SelectedSource(r.flags)) in r.trace)
                  && r.trace == (if f.isLocalVideoStarted then StartLocal(r.flags).trace else [])
                  && StopLocalVideo !in r.trace)
    ensures FiltersExclusive(f) ==> FiltersExclusive(r.flags)
  {
    if !f.isUsingCameraCaptureSource then
      CaptureStep(f, [ShowNotice(FilterNeedsCameraCaptureSource)])
    else if (if gpu then f.isUsingCpuVideoProcessor else f.isUsingGpuVideoProcessor) then
      CaptureStep(f, [ShowNotice(FilterBothEnabled)])
    else
      var g := if gpu then f.(isUsingGpuVideoProcessor := !f.isUsingGpuVideoProcessor)
               else f.(isUsingCpuVideoProcessor := !f.isUsingCpuVideoProcessor);
      if g.isLocalVideoStarted then StartLocal(g) else CaptureStep(g, [])
  }

  /** Toggling an accepted filter twice gives back the original flags. */
  lemma ToggleFilterTwice(f: CaptureFlags, gpu: bool)
    requires FiltersExclusive(f)
    ensures ToggleFilter(ToggleFilter(f, gpu).flags, gpu).flags == f
  {
  }

  /**
   * Switching a filter off always succeeds from a legal state, and leaves the
   * bare camera source selected.
   */
  lemma FilterOffAlwaysAccepted(f: CaptureFlags, gpu: bool)
    requires FiltersExclusive(f) && f.isUsingCameraCaptureSource
    requires if gpu then f.isUsingGpuVideoProcessor else f.isUsingCpuVideoProcessor
    ensures var r := ToggleFilter(f, gpu);
            && (forall c :: c in r.trace ==> !c.ShowNotice?)
            && SelectedSource(r.flags) == CameraCaptureSource
  {
  }

  /** Stopping local video after starting it restores the flags of a stopped pipeline. */
  lemma StopUndoesStart(f: CaptureFlags)
    requires !f.isLocalVideoStarted
    ensures StopLocal(StartLocal(f).flags).flags == f
  {
  }
}
