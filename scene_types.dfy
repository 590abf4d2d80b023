/** Data model of a scene as the scene resolver sees it: the scene record with
    its path and probed metadata, the stream options offered for it, and the
    custom fields a scene may carry. */
module SceneTypes {

  datatype Option<+T> = None | Some(value: T)

  /** The probed container format. Only MP4 and MKV are named by the resolver;
      every other format the prober can report is `OtherContainer`. Every
      format is a non-empty enum string, so a present container is truthy. */
  datatype Container = Mp4 | Mkv | OtherContainer

  /** Probed metadata of a scene. A missing field is `None`. */
  datatype Meta = Meta(container: Option<Container>, videoCodec: Option<string>)

  /** JavaScript truthiness of an optional string: null, undefined and the
      empty string are all falsy. */
  predicate Truthy(s: Option<string>)
  {
    s.Some? && s.value != ""
  }

  /** A scene is probed when both its container and its video codec are known. */
  predicate HasCodecInfo(m: Meta)
  {
    m.container.Some? && Truthy(m.videoCodec)
  }

  /** The stream kinds a client may ask the scene router for. */
  datatype StreamType = Direct | Mp4Stream | WebmStream

  /** One playback option (the `AvailableStreams` record). */
  datatype StreamOption = StreamOption(
    description: string,
    mimeType: Option<string>,
    streamType: StreamType,
    transcode: bool)

  const VideoMp4: string := "video/mp4"
  const VideoWebm: string := "video/webm"

  /** A scene record. The resolver may replace its metadata in place. */
  class Scene {
    var id: string
    var path: Option<string>
    var meta: Meta

    constructor (id: string, path: Option<string>, meta: Meta)
      ensures this.id == id && this.path == path && this.meta == meta
    {
      this.id := id;
      this.path := path;
      this.meta := meta;
    }
  }

  /** The kinds of entity a custom field can be attached to. */
  datatype FieldTarget = Scenes | OtherTarget(name: string)

  datatype CustomField = CustomField(id: string, target: seq<FieldTarget>)

  predicate TargetsScenes(f: CustomField)
  {
    Scenes in f.target
  }
}
