/** The one piece of argument handling with logic in it: the cropping
    percentage clamp of `check_args` (video_process.py:182-183). */
module Arguments {

  /** An integer cropping percentage outside [0, 50) is replaced by the
      default 33; one inside is kept. */
  function ClampCropping(cropping: int): (r: int)
    ensures 0 <= r < 50
    ensures 0 <= cropping < 50 ==> r == cropping
    ensures !(0 <= cropping < 50) ==> r == 33
  {
    if cropping >= 0 && cropping < 50 then cropping else 33
  }

  /** Clamping a clamped percentage changes nothing. */
  lemma ClampIdempotent(cropping: int)
    ensures ClampCropping(ClampCropping(cropping)) == ClampCropping(cropping)
  {
  }
}
