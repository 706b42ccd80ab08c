/**
 * The per-repository video lookup (`getVideoFile`): a table from repository name to the
 * file name of its demo video, with `demo_video.mp4` as the fallback.
 */
module VideoFiles {

  const DefaultVideoFile := "demo_video.mp4"

  /** The table of repositories that have a video of their own. */
  const VideoFileTable: map<string, string> := map[
    "inverted-pendulum" := "demo_video.mp4",
    "mnist-vae" := "demo_video.mp4",
    "motor-position-correction" := "demo_video.mp4",
    "prompter-plotter" := "demo_video.mp4"
  ]

  /**
   * The video file of `repo`: its own table entry, else the fallback. Every entry in the
   * table is the fallback file, so the answer is the same for every repository and is
   * never empty.
   */
  function VideoFile(repo: string): (file: string)
    ensures file == DefaultVideoFile
    ensures file != ""
  {
    if repo in VideoFileTable then VideoFileTable[repo] else DefaultVideoFile
  }

  // The lookup as written in JavaScript: `videoFiles[repo] || 'demo_video.mp4'` on a plain
  // object literal. Property access on such an object also finds the members every object
  // inherits from `Object.prototype`.

  /** The JavaScript values the property access can yield. */
  datatype JsValue = Undefined | Str(s: string) | InheritedMember(name: string)

  /** The property names every plain object inherits from `Object.prototype`. */
  const ObjectPrototypeMembers: set<string> := {
    "constructor", "hasOwnProperty", "isPrototypeOf", "propertyIsEnumerable",
    "toLocaleString", "toString", "valueOf", "__proto__",
    "__defineGetter__", "__defineSetter__", "__lookupGetter__", "__lookupSetter__"
  }

  /** `videoFiles[repo]`: an own entry, else an inherited member, else `undefined`. */
  function PropertyOf(repo: string): JsValue {
    if repo in VideoFileTable then Str(VideoFileTable[repo])
    else if repo in ObjectPrototypeMembers then InheritedMember(repo)
    else Undefined
  }

  /** JavaScript truthiness of the values above (inherited members are functions or objects). */
  predicate Truthy(v: JsValue) {
    match v
    case Undefined => false
    case Str(s) => s != ""
    case InheritedMember(_) => true
  }

  /**
   * `getVideoFile` as written. Its result is always truthy, so the `!videoFile` guards of
   * its callers never fire; for every repository name other than an inherited member it
   * agrees with `VideoFile`.
   */
  function GetVideoFileAsWritten(repo: string): (v: JsValue)
    ensures Truthy(v)
    ensures repo !in ObjectPrototypeMembers ==> v == Str(VideoFile(repo))
  {
    var found := PropertyOf(repo);
    if Truthy(found) then found else Str(DefaultVideoFile)
  }

  /**
   * A repository named `toString` does not reach the fallback: the lookup yields the
   * inherited `Object.prototype.toString` function instead of a file name.
   */
  lemma InheritedMemberBypassesFallback()
    ensures GetVideoFileAsWritten("toString") == InheritedMember("toString")
    ensures GetVideoFileAsWritten("toString") != Str(VideoFile("toString"))
  {
    assert "toString" !in VideoFileTable;
    assert "toString" in ObjectPrototypeMembers;
  }
}
