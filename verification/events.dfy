/** The mouse events the effects react to (OpenCV's CV_EVENT_* codes). */
module Events {

  datatype MouseEvent =
    | LeftDown                // CV_EVENT_LBUTTONDOWN
    | RightDown               // CV_EVENT_RBUTTONDOWN
    | MiddleDown              // CV_EVENT_MBUTTONDOWN
    | OtherEvent(code: int)   // moves, releases, double clicks, ...
}
