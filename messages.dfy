/** The parts of the ROS messages that the post-inference logic reads or
    fills in. Pixel buffers are not modelled: a colour image is its size and
    its header. */
module Messages {

  datatype Option<T> = None | Some(value: T)

  /** `std_msgs/Header`: the capture stamp and the frame the image was taken in. */
  datatype Header = Header(stamp: int, frameId: string)

  /** A colour frame after `cv_bridge` conversion: `cols` x `rows` pixels. */
  datatype ImageMsg = ImageMsg(cols: nat, rows: nat, header: Header)

  /** `geometry_msgs/TransformStamped` as the nodes fill it in: a header, the
      child frame (the class name) and a translation. The rotation is left at
      its default. */
  datatype TransformStamped = TransformStamped(header: Header, childFrameId: string, x: real, y: real, z: real)

  /** `world_info_msgs/WorldInfo`: a header, the class name (`num`), a
      position and the kind of object (`type`). */
  datatype WorldInfo = WorldInfo(header: Header, num: string, x: real, y: real, z: real, kind: string)

  /** What a node publishes for one located object: the TF message it
      broadcasts and the `WorldInfo` it publishes. */
  datatype PosePublication = PosePublication(tf: TransformStamped, info: WorldInfo)
}
