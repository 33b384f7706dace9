/**
 * `videolistMapper.toVideoList`: the catalog summary of a video, its `id`,
 * `topic` and `thumbnail` and nothing else.
 */
module VideolistMapper {
  import opened VideoEntity

  /** The summary object literal: exactly three fields. */
  datatype VideolistDTO = VideolistDTO(id: string, topic: string, thumbnail: string)

  function ToVideoList(v: Video): (d: VideolistDTO)
    ensures d.id == v.id && d.topic == v.topic && d.thumbnail == v.thumbnail
  {
    VideolistDTO(v.id, v.topic, v.thumbnail)
  }

  /** Two videos have the same summary exactly when they agree on id, topic and
      thumbnail: description, duration and url do not reach the summary. */
  lemma SameSummary(a: Video, b: Video)
    ensures ToVideoList(a) == ToVideoList(b) <==>
      a.id == b.id && a.topic == b.topic && a.thumbnail == b.thumbnail
  {
  }
}
