/**
 * The decisions of the face authentication screen: where the unlock button
 * sends the user, and which angle the preview is counter-rotated by.
 */
module FaceAuthentication {
  import opened Wrappers
  import FrameAnalyser

  /** The screen the button starts: SecondActivity on success, MainActivity with an "error" extra otherwise. */
  datatype Navigation = ToSecondActivity | ToMainActivity(error: string)

  /** The "error" extra on a failed attempt. */
  const WrongIdentity: string := "You entered the wrong identity! Please try again!"

  /** Reading `phoneOwner` before scanStorageForImages has set it. */
  const OwnerNotInitialized: string := "lateinit property phoneOwner has not been initialized"

  /**
   * The faceAuthBtn listener. `phoneOwner` is the first enrolled directory's
   * name, absent until scanStorageForImages sets it; `labelText` is the text of
   * the label view, which the frame analyser last set to a best-match name.
   */
  function FaceAuthClick(phoneOwner: Option<string>, labelText: string): (r: Result<Navigation, string>)
    ensures r.Failure? <==> phoneOwner.None?
    ensures r.Failure? ==> r.error == OwnerNotInitialized
    ensures r == Success(ToSecondActivity) <==> phoneOwner == Some(labelText)
    ensures r.Success? && r.value.ToMainActivity? ==> r.value.error == WrongIdentity
  {
    match phoneOwner
    case None => Failure(OwnerNotInitialized)
    case Some(owner) =>
      if owner == labelText then Success(ToSecondActivity) else Success(ToMainActivity(WrongIdentity))
  }

  /** Only one label text unlocks the phone for a given owner, and it is the owner's name. */
  lemma OnlyOwnerUnlocks(phoneOwner: Option<string>, text1: string, text2: string)
    requires FaceAuthClick(phoneOwner, text1) == Success(ToSecondActivity)
    requires FaceAuthClick(phoneOwner, text2) == Success(ToSecondActivity)
    ensures text1 == text2 && phoneOwner == Some(text1)
  {
  }

  /** Surface.ROTATION_0 .. ROTATION_270: quarter turns of the display. */
  const SURFACE_ROTATION_0: int := 0
  const SURFACE_ROTATION_90: int := 1
  const SURFACE_ROTATION_180: int := 2
  const SURFACE_ROTATION_270: int := 3

  /**
   * The `when` in updateTransform: the display rotation in degrees, or None
   * for an unknown value, where updateTransform returns before touching the
   * view's transform.
   */
  function DisplayRotationDegrees(rotation: int): (d: Option<int>)
    ensures d.Some? <==> 0 <= rotation < 4
    ensures d.Some? ==> d.value == 90 * rotation
  {
    if rotation == SURFACE_ROTATION_0 then Some(0)
    else if rotation == SURFACE_ROTATION_90 then Some(90)
    else if rotation == SURFACE_ROTATION_180 then Some(180)
    else if rotation == SURFACE_ROTATION_270 then Some(270)
    else None
  }

  /**
   * A cross-check of the chosen platform constants, not a path of the
   * program: updateTransform's angle goes only to the preview's rotation
   * matrix, and the analyser's metadata uses a literal 90. With Surface and
   * Firebase rotations both counted in quarter turns, every angle
   * updateTransform derives is one degreesToFirebaseRotation accepts, and it
   * maps back to the same count.
   */
  lemma DisplayDegreesAreFirebaseRotations(rotation: int)
    requires DisplayRotationDegrees(rotation).Some?
    ensures FrameAnalyser.DegreesToFirebaseRotation(DisplayRotationDegrees(rotation).value) == Success(rotation)
  {
  }
}
