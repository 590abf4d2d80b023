# Scene stream negotiation and scene custom fields

This project models two resolvers of the scene type of a personal media
library's query API (`src/graphql/resolvers/scene.ts`):

- `availableStreams`: given a scene's path and probed metadata (container,
  video codec), it returns the ordered menu of playback options a client may
  pick from. Direct play always comes first. An MP4 remux of MKV files
  ("mkv direct stream") comes next when the video codec fits MP4. The WEBM
  transcode is always the last fallback. A scene without a path gets nothing.
  A scene missing its container or video codec is probed first. Its metadata
  is replaced in place, an upsert is fired without waiting for it, and the
  list is computed from the new metadata.
- `availableFields`: the custom fields whose target list contains `SCENES`,
  in their original order.

`SceneTypes` (`scene_types.dfy`) holds the data model: the scene class (its
`meta` is updated in place), the metadata, the stream option record and the
custom field. `SceneResolver` (`scene_resolver.dfy`) holds the operations.
`Streams` is the specification of the list. `BuildStreams` builds it the way
the source does, putting direct play at the front and appending the rest.
`AvailableStreams` adds the probe prelude. The effects it asks for (the
probe, the upsert carrying the post-probe metadata) come back as an ordered
effect log.

Three collaborators are parameters, not definitions:
- `getExtension` (path to extension);
- `validForContainer` (the codec/container compatibility lookup; no table is assumed);
- `probe` (running the prober on a scene, which yields new metadata or a rejection).

JavaScript truthiness is written out. A path or video codec that is absent
or the empty string counts as missing (`Truthy`). A container counts as
missing only when it is absent: every container format is a non-empty enum
string, so a present one is always truthy. For that reason the containers
other than MP4 and MKV are one value, `OtherContainer`, with no name.

Two behaviours of the code worth noting:
- A failing probe (scene.ts line 68, awaited with no `catch`) rejects the whole call.
  The model returns `Rejected` and issues no upsert; no fallback list is
  returned.
- The remux entry's stream type is `MP4` (scene.ts line 96), here `Mp4Stream`. There
  is no separate "remux" kind.

## Model

| member | source | states |
|---|---|---|
| SceneResolver.CanRemux | src/graphql/resolvers/scene.ts:88-92 | the remux is offered only for MKV; a remuxable scene always has codec information; for a probed MKV scene it is offered exactly when MP4 accepts the video codec |
| SceneResolver.DirectPlay | src/graphql/resolvers/scene.ts:76-85 | direct play has stream type DIRECT and no transcode; its MIME type is `video/mp4` exactly when the extension is `.mp4` or `.mkv`, and absent in every other case |
| SceneResolver.Streams | src/graphql/resolvers/scene.ts:74-111 | for a scene with a path: length 3 when the MKV remux condition holds and 2 otherwise; first is direct play, last is the WEBM transcode (`video/webm`, WEBM, transcode); the remux entry (`video/mp4`, MP4, transcode) is present iff container is MKV, the codec is present and MP4 accepts it, and then sits at index 1; only index 0 is not transcoded; no other entries |
| SceneResolver.StreamsDetermined | src/graphql/resolvers/scene.ts:74-111 | the ordering rules determine the list uniquely: any list meeting them equals `Streams` |
| SceneResolver.BuildStreams | src/graphql/resolvers/scene.ts:74-107 | building the list by unshifting direct play and pushing the optional remux and the webm fallback yields exactly `Streams` |
| SceneResolver.AvailableStreams | src/graphql/resolvers/scene.ts:59-112 | no path: empty list, no probe, no upsert, metadata untouched; probed scene: no effects, metadata untouched; unprobed scene: exactly one probe, then (on success) the metadata becomes the probe's and one upsert of it is issued, or (on failure) the call is rejected with no upsert; the call is rejected exactly when the path is set, the scene is unprobed and the probe fails, and otherwise resolves; a resolved list for a scene with a path is `Streams` of the post-probe metadata, independent of the upsert |
| SceneResolver.MkvH264Example | src/graphql/resolvers/scene.ts:76-107 | an MKV file with an MP4-compatible codec gets exactly direct play (`video/mp4`), mkv direct stream, webm transcode |
| SceneResolver.AviExample | src/graphql/resolvers/scene.ts:76-107 | a non-MKV file with an `.avi` extension gets exactly direct play without MIME type and webm transcode |
| SceneResolver.ForScenes | src/graphql/resolvers/scene.ts:49-52 | the result holds exactly the fields whose target contains SCENES, each as many times as in the input |
| SceneResolver.ForScenesAppend | src/graphql/resolvers/scene.ts:51 | the filter distributes over concatenation, so it keeps the relative order of the fields |
| SceneResolver.ForScenesSubsequence | src/graphql/resolvers/scene.ts:51 | the result is a subsequence of the input (original order kept) |
| SceneResolver.ForScenesIdempotent | src/graphql/resolvers/scene.ts:51 | filtering an already filtered list changes nothing |
| SceneResolver.AvailableFields | src/graphql/resolvers/scene.ts:49-52 | returns the scene fields of all custom fields, in their original order |

## Left out

- The processing queue: its implementation (src/queue/index) is not part of this model; src/server.ts only calls `getLength`, `processLoop` and `setStore` on it.
- src/server.ts: HTTP routing, static serving, the password gate, backups, folder scanning and the `isRegExp` wrapper. This is I/O and process plumbing.
- The other scene resolvers (`actors`, `images`, `labels`, `thumbnail`, `preview`, `studio`, `markers`, `movies`, `watches`): each is a single database call.
- `getExtension`, `videoIsValidForContainer` and `Scene.runFFProbe`: their code is not part of this model. They are function parameters.
- `CustomField.getAll()`: the database read is replaced by a parameter holding all fields.
- The asynchronous, fire-and-forget upsert and its `.catch` logging, and concurrent probes of one scene: the model records the upsert request as an effect and never observes its outcome.
- Logging (`logger.verbose`, `handleError`).
- Metadata other than container and video codec: duration, dimensions and the audio codec are not read by the resolver.
- AvailableStreams: the model assumes the probe changes only `meta` (the path and id stay). It also assumes a failing probe leaves `meta` untouched. The prober's code, which would show partial updates, is not part of this model.
- The record field `label` is called `description`, because `label` is a Dafny keyword.
- Custom fields are modelled only by an id and a target list. The other attributes play no part in the filter.
