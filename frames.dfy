/** What the camera, the Haar detector and the LBPH recognizer contribute to
    one loop iteration, supplied as data. */
module Frames {

  /** One detected face rectangle, carrying what the loaded recognizer's
      predict() answers for its crop: the predicted id and a distance (lower is a
      closer match). Enrollment only counts the rectangles. */
  datatype Face = Face(predicted: int, confidence: real)

  /** One cap.read(): a failed read, or a frame with the wall-clock reading
      taken after it, the detector's faces in the order returned, and whether
      waitKey reported 'q' after the frame was shown. */
  datatype Frame =
    | ReadFail
    | Captured(time: int, faces: seq<Face>, quit: bool)

}
