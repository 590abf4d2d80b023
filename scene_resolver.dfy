/** The scene resolver's two computations: the negotiation of playback
    streams for a scene (`availableStreams`) and the selection of the custom
    fields that apply to scenes (`availableFields`).

    The collaborators whose code is not part of this model are parameters:
    `getExtension` maps a path to its extension (with the dot),
    `validForContainer` says whether a video codec may be carried in a
    container, and `probe` stands for running the prober on a scene. */
module SceneResolver {
  import opened SceneTypes

  // ---------------------------------------------------------------------
  // Stream negotiation
  // ---------------------------------------------------------------------

  /** What running the prober on a scene yields: its new metadata, or a
      rejection that the resolver does not catch. */
  datatype ProbeResult = Probed(meta: Meta) | ProbeFailed

  /** The side effects the resolver asks for, in order. The upsert is
      fire-and-forget: its outcome is never read back. */
  datatype Effect =
    | RunProbe(sceneId: string)
    | Upsert(sceneId: string, path: string, meta: Meta)

  /** The resolver's answer: a list of streams, or the rejection of the
      awaited probe, which propagates to the caller. */
  datatype Outcome = Resolved(streams: seq<StreamOption>) | Rejected

  /** An MKV file whose video codec may be carried in MP4 can be remuxed
      rather than transcoded. */
  predicate CanRemux(m: Meta, validForContainer: (Container, string) -> bool)
    ensures CanRemux(m, validForContainer) ==> HasCodecInfo(m)
    ensures m.container != Some(Mkv) ==> !CanRemux(m, validForContainer)
    ensures HasCodecInfo(m) && m.container == Some(Mkv) ==>
              (CanRemux(m, validForContainer) <==> validForContainer(Mp4, m.videoCodec.value))
  {
    m.container == Some(Mkv) && Truthy(m.videoCodec) && validForContainer(Mp4, m.videoCodec.value)
  }

  /** Direct play of the file. MKV files are advertised as MP4 so that
      browsers attempt to play them; any other extension than .mp4 and .mkv
      gets no MIME type and is left to the browser's sniffing. */
  function DirectPlay(path: string, getExtension: string -> string): (o: StreamOption)
    ensures o.description == "direct play" && o.streamType == Direct && !o.transcode
    ensures o.mimeType == Some(VideoMp4) <==> getExtension(path) in [".mp4", ".mkv"]
    ensures o.mimeType == None <==> getExtension(path) !in [".mp4", ".mkv"]
  {
    var ext := getExtension(path);
    StreamOption("direct play", if ext == ".mp4" || ext == ".mkv" then Some(VideoMp4) else None, Direct, false)
  }

  const MkvDirectStream: StreamOption := StreamOption("mkv direct stream", Some(VideoMp4), Mp4Stream, true)

  const WebmTranscode: StreamOption := StreamOption("webm transcode", Some(VideoWebm), WebmStream, true)

  /** The streams offered for a scene with a (non-empty) path and the given
      metadata, cheapest first. */
  function Streams(path: string, m: Meta, getExtension: string -> string,
                   validForContainer: (Container, string) -> bool): (r: seq<StreamOption>)
    ensures |r| == if CanRemux(m, validForContainer) then 3 else 2
    ensures r[0] == DirectPlay(path, getExtension)
    ensures r[|r| - 1] == WebmTranscode
    ensures MkvDirectStream in r <==> CanRemux(m, validForContainer)
    ensures CanRemux(m, validForContainer) ==> r[1] == MkvDirectStream
    ensures forall i :: 0 <= i < |r| ==> (r[i].transcode <==> i != 0)
    ensures forall i :: 0 <= i < |r| ==>
              r[i] == DirectPlay(path, getExtension) || r[i] == MkvDirectStream || r[i] == WebmTranscode
  {
    [DirectPlay(path, getExtension)]
      + (if CanRemux(m, validForContainer) then [MkvDirectStream] else [])
      + [WebmTranscode]
  }

  /** The ordering rules pin the list down: any list that starts with direct
      play, ends with the WEBM fallback, has the remux in second place when
      the file can be remuxed, and is no longer than that, is `Streams`. */
  lemma StreamsDetermined(path: string, m: Meta, getExtension: string -> string,
                          validForContainer: (Container, string) -> bool, r: seq<StreamOption>)
    requires |r| == if CanRemux(m, validForContainer) then 3 else 2
    requires r[0] == DirectPlay(path, getExtension) && r[|r| - 1] == WebmTranscode
    requires CanRemux(m, validForContainer) ==> r[1] == MkvDirectStream
    ensures r == Streams(path, m, getExtension, validForContainer)
  {
  }

  /** Builds the stream list step by step: direct play is put at the front,
      the MKV remux and the WEBM fallback are appended behind it. */
  method BuildStreams(path: string, m: Meta, getExtension: string -> string,
                      validForContainer: (Container, string) -> bool)
    returns (streams: seq<StreamOption>)
    ensures streams == Streams(path, m, getExtension, validForContainer)
  {
    streams := [];
    streams := [DirectPlay(path, getExtension)] + streams;
    if CanRemux(m, validForContainer) {
      streams := streams + [MkvDirectStream];
    }
    streams := streams + [WebmTranscode];
  }

  /** The `availableStreams` resolver. A scene without a path has nothing to
      stream. A scene lacking its container or video codec is probed first,
      its metadata replaced in place and an upsert of it requested; the list
      is then built from the metadata as it stands after the probe. */
  method AvailableStreams(scene: Scene, getExtension: string -> string,
                          validForContainer: (Container, string) -> bool,
                          probe: (string, Meta) -> ProbeResult)
    returns (outcome: Outcome, effects: seq<Effect>)
    modifies scene
    ensures scene.id == old(scene.id) && scene.path == old(scene.path)
    ensures !Truthy(scene.path) ==>
              outcome == Resolved([]) && effects == [] && scene.meta == old(scene.meta)
    ensures Truthy(scene.path) && HasCodecInfo(old(scene.meta)) ==>
              effects == [] && scene.meta == old(scene.meta)
    ensures Truthy(scene.path) && !HasCodecInfo(old(scene.meta)) ==>
              match probe(scene.path.value, old(scene.meta))
              case ProbeFailed =>
                outcome == Rejected && effects == [RunProbe(scene.id)] && scene.meta == old(scene.meta)
              case Probed(m) =>
                scene.meta == m && effects == [RunProbe(scene.id), Upsert(scene.id, scene.path.value, m)]
    ensures outcome.Rejected? <==>
              Truthy(scene.path) && !HasCodecInfo(old(scene.meta))
              && probe(scene.path.value, old(scene.meta)).ProbeFailed?
    ensures Truthy(scene.path) && outcome.Resolved? ==>
              outcome.streams == Streams(scene.path.value, scene.meta, getExtension, validForContainer)
  {
    effects := [];
    if !Truthy(scene.path) {
      return Resolved([]), effects;
    }
    var path := scene.path.value;
    if !HasCodecInfo(scene.meta) {
      effects := effects + [RunProbe(scene.id)];
      var probed := probe(path, scene.meta);
      if probed.ProbeFailed? {
        return Rejected, effects;
      }
      scene.meta := probed.meta;
      effects := effects + [Upsert(scene.id, path, scene.meta)];
    }
    var streams := BuildStreams(path, scene.meta, getExtension, validForContainer);
    outcome := Resolved(streams);
  }

  /** An MKV file with an H.264 stream that MP4 accepts gets all three options. */
  lemma MkvH264Example(getExtension: string -> string, validForContainer: (Container, string) -> bool)
    requires getExtension("movie.mkv") == ".mkv"
    requires validForContainer(Mp4, "h264")
    ensures Streams("movie.mkv", Meta(Some(Mkv), Some("h264")), getExtension, validForContainer)
            == [StreamOption("direct play", Some(VideoMp4), Direct, false),
                StreamOption("mkv direct stream", Some(VideoMp4), Mp4Stream, true),
                StreamOption("webm transcode", Some(VideoWebm), WebmStream, true)]
  {
  }

  /** An AVI file gets direct play without a MIME type and the WEBM fallback. */
  lemma AviExample(getExtension: string -> string, validForContainer: (Container, string) -> bool)
    requires getExtension("clip.avi") == ".avi"
    ensures Streams("clip.avi", Meta(Some(OtherContainer), Some("mpeg4")), getExtension, validForContainer)
            == [StreamOption("direct play", None, Direct, false),
                StreamOption("webm transcode", Some(VideoWebm), WebmStream, true)]
  {
  }

  // ---------------------------------------------------------------------
  // Custom fields that apply to scenes
  // ---------------------------------------------------------------------

  /** `r` is `s` with some elements deleted, the rest kept in order. */
  ghost predicate Subsequence<T>(r: seq<T>, s: seq<T>)
    decreases |s|
  {
    if r == [] then true
    else if s == [] then false
    else (r[0] == s[0] && Subsequence(r[1..], s[1..])) || Subsequence(r, s[1..])
  }

  /** The custom fields whose targets include scenes, with their number of
      occurrences. */
  function ForScenes(fields: seq<CustomField>): (r: seq<CustomField>)
    ensures |r| <= |fields|
    ensures forall f :: f in r <==> f in fields && TargetsScenes(f)
    ensures forall f :: multiset(r)[f] == if TargetsScenes(f) then multiset(fields)[f] else 0
  {
    if fields == [] then []
    else
      assert fields == [fields[0]] + fields[1..];
      if TargetsScenes(fields[0]) then [fields[0]] + ForScenes(fields[1..])
      else ForScenes(fields[1..])
  }

  /** Filtering distributes over concatenation: no field changes place
      relative to the others. */
  lemma {:induction false} ForScenesAppend(a: seq<CustomField>, b: seq<CustomField>)
    ensures ForScenes(a + b) == ForScenes(a) + ForScenes(b)
  {
    if a == [] {
      assert a + b == b;
    } else {
      assert (a + b)[1..] == a[1..] + b;
      ForScenesAppend(a[1..], b);
    }
  }

  /** The selected fields appear in the order they had among all fields. */
  lemma {:induction false} ForScenesSubsequence(fields: seq<CustomField>)
    ensures Subsequence(ForScenes(fields), fields)
  {
    if fields != [] {
      ForScenesSubsequence(fields[1..]);
      var rest := ForScenes(fields[1..]);
      if TargetsScenes(fields[0]) {
        assert ([fields[0]] + rest)[1..] == rest;
      } else {
        SubsequenceDropHead(rest, fields);
      }
    }
  }

  /** The "skip the head of `s`" step of `Subsequence`. */
  lemma SubsequenceDropHead<T>(r: seq<T>, s: seq<T>)
    requires s != [] && Subsequence(r, s[1..])
    ensures Subsequence(r, s)
  {
  }

  /** Selecting twice selects nothing more. */
  lemma {:induction false} ForScenesIdempotent(fields: seq<CustomField>)
    ensures ForScenes(ForScenes(fields)) == ForScenes(fields)
  {
    if fields != [] {
      ForScenesIdempotent(fields[1..]);
      if TargetsScenes(fields[0]) {
        var rest := ForScenes(fields[1..]);
        assert ([fields[0]] + rest)[1..] == rest;
      }
    }
  }

  /** The `availableFields` resolver over the list of all custom fields. */
  method AvailableFields(fields: seq<CustomField>) returns (r: seq<CustomField>)
    ensures r == ForScenes(fields)
    ensures Subsequence(r, fields)
  {
    r := ForScenes(fields);
    ForScenesSubsequence(fields);
  }
}
