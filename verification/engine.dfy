/**
 * The media engine, the camera and the video processors are foreign code.
 * The model does not execute their calls: every effect the meeting screen
 * has outside its own state (an engine or camera call, a toast shown to the
 * user, the listener's `onLeaveMeeting`) is recorded as one `Command` of a
 * trace, in effect order.
 */
module Engine {

  /** What local video is started from, or what sink is added to the camera. */
  datatype VideoSource =
    | DefaultSource        // the engine's own camera handling
    | CameraCaptureSource  // the app's camera capture source, unfiltered
    | CpuVideoProcessor    // the camera routed through the CPU demo filter
    | GpuVideoProcessor    // the camera routed through the GPU demo filter

  /** Warnings shown to the user when a filter toggle is refused. */
  datatype Notice =
    | FilterNeedsCameraCaptureSource
    | FilterBothEnabled

  datatype Command =
    | ResumeRemoteVideoTile(tileId: int)
    | PauseRemoteVideoTile(tileId: int)
    | UnbindVideoView(tileId: int)
    | AddVideoSink(sink: VideoSource)
    | StartLocalVideo(source: VideoSource)
    | StartCameraCapture
    | StopCameraCapture
    | StopLocalVideo
    | StopRemoteVideo
    | StopAudioVideo
    | RealtimeLocalMute
    | RealtimeLocalUnmute
    | ShowNotice(notice: Notice)
    | LeaveMeeting
}
