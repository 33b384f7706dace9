/**
 * The `video` entity of the domain layer: six fields, each set once by the
 * constructor and read back through a getter. There are no setters, so the
 * entity is a value.
 */
module VideoEntity {

  /** `duration` is a JavaScript number of seconds with a fractional part. */
  datatype Video = Video(
    id: string,
    topic: string,
    description: string,
    duration: real,
    thumbnail: string,
    url: string)

  /** `new video(id, topic, description, duration, thumbnail, url)` */
  function NewVideo(
    id: string, topic: string, description: string, duration: real,
    thumbnail: string, url: string): (v: Video)
    ensures v.id == id && v.topic == topic && v.description == description
    ensures v.duration == duration && v.thumbnail == thumbnail && v.url == url
  {
    Video(id, topic, description, duration, thumbnail, url)
  }

  /** Two entities are equal exactly when every getter agrees. */
  lemma EqualWhenGettersAgree(a: Video, b: Video)
    ensures a == b <==>
      && a.id == b.id && a.topic == b.topic && a.description == b.description
      && a.duration == b.duration && a.thumbnail == b.thumbnail && a.url == b.url
  {
  }
}
