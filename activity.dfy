/** The activity entity shared by the screens (src/models/Activity.ts). */
module ActivityModel {
  import opened Wrappers

  /** Milliseconds since the epoch: the parsed form of the ISO-8601 `time` string. */
  type Millis = int

  datatype Location = Location(latitude: real, longitude: real)

  /** An activity; `creatorId` is absent when the author was anonymous. */
  datatype Activity = Activity(
    id: string,
    name: string,
    description: string,
    category: string,
    time: Millis,
    location: Location,
    creatorId: Option<string>,
    participants: seq<string>)
}
