/** The detection and tracking records shared by the detectors and trackers:
    integer corner boxes `(x1, y1, x2, y2)`, detections and tracks. Scores
    are Python floats. */
module VisionTypes {
  import opened PyFloat

  datatype Box = Box(x1: int, y1: int, x2: int, y2: int)

  /** A detection: its box, confidence score and class. */
  datatype Detection = Detection(bbox: Box, score: Float, cls: int)

  /** A tracked object: the id a tracker assigned and the detection's fields. */
  datatype Track = Track(trackId: int, bbox: Box, score: Float, cls: int)

  /** Corners in order. */
  predicate WellFormed(b: Box) {
    b.x1 <= b.x2 && b.y1 <= b.y2
  }
}
