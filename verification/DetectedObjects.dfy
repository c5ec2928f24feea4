/** What the clustering of a point cloud hands to the tracker. */
module DetectedObjects {
  import opened SmallMatrices

  /** Centre and lengths. */
  datatype Box = Box(cx: real, cy: real, cz: real, lx: real, ly: real, lz: real)

  /** The rear reference point that is tracked, and the bounding box. */
  datatype Detection = Detection(pos: Vec2, box: Box)
}
