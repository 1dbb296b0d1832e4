/** `Communications`, the bridge from the XAML page to the Unity scene. Both operations look up
    the game object named "Camera" and work on its `ButtonHandlers` script. The scene is a
    value: the game objects by name, and for each one its `ButtonHandlers` component, if it
    has one. An uncaught exception is an `Err`; when there is none, the result is the scene
    as the call leaves it. */
module Communications {
  import opened Wrappers
  import opened DotNet

  const CAMERA := "Camera"
  const CAMERA_NOT_FOUND := "Camera not found, have you exported the correct scene?"

  /** What the page can see of the `ButtonHandlers` script: the messages `ShowFeedback` has
      been given, and the `onEvent` delegate that Unity calls to talk back to XAML. `H` is the
      type of the delegates the page hands over. */
  datatype ButtonHandlers<H> = ButtonHandlers(feedback: seq<string>, onEvent: Option<H>)

  /** A game object and its `ButtonHandlers` component (`None`: it has none). */
  datatype GameObject<H> = GameObject(buttonHandlers: Option<ButtonHandlers<H>>)

  /** The active game objects, by name. */
  datatype Scene<H> = Scene(objects: map<string, GameObject<H>>)

  /** `GameObject.Find(name)`: the object of that name, or null. */
  function Find<H>(scene: Scene<H>, name: string): (found: Option<GameObject<H>>)
    ensures found.Some? <==> name in scene.objects
    ensures found.Some? ==> scene.objects[name] == found.value
  {
    if name in scene.objects then Some(scene.objects[name]) else None
  }

  /** The scene with the Camera's `ButtonHandlers` replaced by `bh`. */
  function WithCameraHandlers<H>(scene: Scene<H>, bh: ButtonHandlers<H>): (r: Scene<H>)
    requires CAMERA in scene.objects
    ensures CAMERA in r.objects && r.objects[CAMERA] == GameObject(Some(bh))
    ensures r.objects.Keys == scene.objects.Keys
    ensures forall name :: name in scene.objects && name != CAMERA ==> r.objects[name] == scene.objects[name]
  {
    Scene(scene.objects[CAMERA := GameObject(Some(bh))])
  }

  /** `SendMessageToUnity(msg)`: the Camera's `ButtonHandlers.ShowFeedback(msg)`. A missing
      Camera throws the "Camera not found" exception; a Camera without the component makes
      `GetComponent` return null, and the call on it throws a `NullReferenceException`. */
  function SendMessageToUnity<H>(msg: string, scene: Scene<H>): (r: Result<Scene<H>, Exception>)
    ensures r.Err? ==> r.error == (if CAMERA in scene.objects then NullReference else Thrown(CAMERA_NOT_FOUND))
    ensures r.Ok? ==> SameShape(scene, r.value) && OthersUnchanged(scene, r.value)
  {
    match Find(scene, CAMERA)
    case None => Err(Thrown(CAMERA_NOT_FOUND))
    case Some(camera) =>
      match camera.buttonHandlers
      case None => Err(NullReference)
      case Some(bh) => Ok(WithCameraHandlers(scene, bh.(feedback := bh.feedback + [msg])))
  }

  /** `SetEventCallback(e)`: installs `e` as the Camera's `onEvent`. A missing Camera throws;
      a Camera without the component is skipped without a word. */
  function SetEventCallback<H>(e: H, scene: Scene<H>): (r: Result<Scene<H>, Exception>)
    ensures r.Err? <==> CAMERA !in scene.objects
    ensures r.Err? ==> r.error == Thrown(CAMERA_NOT_FOUND)
    ensures r.Ok? ==> SameShape(scene, r.value) && OthersUnchanged(scene, r.value)
  {
    match Find(scene, CAMERA)
    case None => Err(Thrown(CAMERA_NOT_FOUND))
    case Some(camera) =>
      match camera.buttonHandlers
      case None => Ok(scene)
      case Some(bh) => Ok(WithCameraHandlers(scene, bh.(onEvent := Some(e))))
  }

  // ---------------------------------------------------------------------------
  // What the Camera's script has seen

  /** The Camera's `ButtonHandlers`, if the scene has both. */
  function CameraHandlers<H>(scene: Scene<H>): (bh: Option<ButtonHandlers<H>>)
    ensures bh.Some? <==> CAMERA in scene.objects && scene.objects[CAMERA].buttonHandlers.Some?
  {
    if CAMERA in scene.objects then scene.objects[CAMERA].buttonHandlers else None
  }

  /** The routing decision: which objects exist and which have the script. Neither
      operation changes it. */
  ghost predicate SameShape<H>(s: Scene<H>, t: Scene<H>) {
    s.objects.Keys == t.objects.Keys &&
    forall name :: name in s.objects ==>
      (s.objects[name].buttonHandlers.Some? <==> t.objects[name].buttonHandlers.Some?)
  }

  /** Only the Camera's script is touched. */
  ghost predicate OthersUnchanged<H>(s: Scene<H>, t: Scene<H>) {
    forall name :: name in s.objects && name in t.objects && name != CAMERA ==>
      t.objects[name] == s.objects[name]
  }

  // ---------------------------------------------------------------------------
  // Properties

  /** Sending succeeds exactly when the Camera has the script, and then the message is
      appended to its feedback once, the installed delegate stays, and nothing else changes. */
  lemma SendForwardsOnce<H>(msg: string, scene: Scene<H>)
    ensures SendMessageToUnity(msg, scene).Ok? <==> CameraHandlers(scene).Some?
    ensures SendMessageToUnity(msg, scene).Ok? ==>
              var after := SendMessageToUnity(msg, scene).value;
              CameraHandlers(after).Some? &&
              CameraHandlers(after).value.feedback == CameraHandlers(scene).value.feedback + [msg] &&
              CameraHandlers(after).value.onEvent == CameraHandlers(scene).value.onEvent &&
              SameShape(scene, after) && OthersUnchanged(scene, after)
  {
  }

  /** Without a Camera, both operations throw the same exception. */
  lemma CameraMissing<H>(msg: string, e: H, scene: Scene<H>)
    requires CAMERA !in scene.objects
    ensures SendMessageToUnity(msg, scene) == Err(Thrown(CAMERA_NOT_FOUND))
    ensures SetEventCallback(e, scene) == Err(Thrown(CAMERA_NOT_FOUND))
  {
  }

  /** A Camera without the script: sending throws, registering is silently skipped. */
  lemma ComponentMissing<H>(msg: string, e: H, scene: Scene<H>)
    requires CAMERA in scene.objects && scene.objects[CAMERA].buttonHandlers.None?
    ensures SendMessageToUnity(msg, scene) == Err(NullReference)
    ensures SetEventCallback(e, scene) == Ok(scene)
  {
  }

  /** When the Camera has the script, registering succeeds, installs `e` and keeps the
      feedback the script has been given. */
  lemma SetInstalls<H>(e: H, scene: Scene<H>)
    ensures CameraHandlers(scene).Some? ==>
              SetEventCallback(e, scene).Ok? &&
              var after := SetEventCallback(e, scene).value;
              CameraHandlers(after).Some? && CameraHandlers(after).value.onEvent == Some(e) &&
              CameraHandlers(after).value.feedback == CameraHandlers(scene).value.feedback
  {
  }

  /** Registering the same delegate twice is the same as registering it once. */
  lemma SetIdempotent<H>(e: H, scene: Scene<H>)
    requires SetEventCallback(e, scene).Ok?
    ensures SetEventCallback(e, SetEventCallback(e, scene).value) == SetEventCallback(e, scene)
  {
    var after := SetEventCallback(e, scene).value;
    if CameraHandlers(scene).Some? {
      var bh := CameraHandlers(scene).value;
      assert after.objects[CAMERA := GameObject(Some(bh.(onEvent := Some(e))))] == after.objects;
    }
  }

  /** The last delegate registered wins. */
  lemma LastSetWins<H>(e1: H, e2: H, scene: Scene<H>)
    requires SetEventCallback(e1, scene).Ok?
    ensures SetEventCallback(e2, SetEventCallback(e1, scene).value) == SetEventCallback(e2, scene)
  {
    if CameraHandlers(scene).Some? {
      var bh := CameraHandlers(scene).value;
      assert scene.objects[CAMERA := GameObject(Some(bh.(onEvent := Some(e1))))]
                      [CAMERA := GameObject(Some(bh.(onEvent := Some(e2))))]
          == scene.objects[CAMERA := GameObject(Some(bh.(onEvent := Some(e2))))];
    }
  }

  /** Sending and registering do not interfere: in either order the scene ends the same. */
  lemma SendAndSetCommute<H>(msg: string, e: H, scene: Scene<H>)
    requires SendMessageToUnity(msg, scene).Ok?
    ensures SetEventCallback(e, scene).Ok?
    ensures SetEventCallback(e, SendMessageToUnity(msg, scene).value).Ok?
    ensures SendMessageToUnity(msg, SetEventCallback(e, scene).value).Ok?
    ensures SetEventCallback(e, SendMessageToUnity(msg, scene).value) ==
            SendMessageToUnity(msg, SetEventCallback(e, scene).value)
  {
    var bh := CameraHandlers(scene).value;
    var both := GameObject(Some(ButtonHandlers(bh.feedback + [msg], Some(e))));
    assert scene.objects[CAMERA := GameObject(Some(bh.(feedback := bh.feedback + [msg])))][CAMERA := both]
        == scene.objects[CAMERA := both];
    assert scene.objects[CAMERA := GameObject(Some(bh.(onEvent := Some(e))))][CAMERA := both]
        == scene.objects[CAMERA := both];
  }

  /** Messages sent one after another arrive in order. */
  lemma SendTwiceInOrder<H>(m1: string, m2: string, scene: Scene<H>)
    requires SendMessageToUnity(m1, scene).Ok?
    ensures SendMessageToUnity(m2, SendMessageToUnity(m1, scene).value).Ok?
    ensures CameraHandlers(SendMessageToUnity(m2, SendMessageToUnity(m1, scene).value).value).value.feedback
            == CameraHandlers(scene).value.feedback + [m1, m2]
  {
    SendForwardsOnce(m1, scene);
    var after := SendMessageToUnity(m1, scene).value;
    SendForwardsOnce(m2, after);
  }
}
