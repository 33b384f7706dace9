/**
 * `iVideoRepository`: the catalog list built from the stored records, and the
 * two lookups, which are stubs that return nothing. The JSON file the list is
 * read from is the `videos` parameter.
 */
module VideoRepository {
  import opened Wrappers
  import opened VideoEntity
  import opened VideolistMapper

  /** `getVideolist`: one summary pushed per record, in order. */
  method GetVideolist(videos: seq<Video>) returns (videolist: seq<VideolistDTO>)
    ensures |videolist| == |videos|
    ensures forall i :: 0 <= i < |videos| ==> videolist[i] == ToVideoList(videos[i])
  {
    videolist := [];
    var i := 0;
    while i < |videos|
      invariant 0 <= i <= |videos|
      invariant |videolist| == i
      invariant forall j :: 0 <= j < i ==> videolist[j] == ToVideoList(videos[j])
    {
      videolist := videolist + [ToVideoList(videos[i])];
      i := i + 1;
    }
  }

  /** `getById`: an empty body, so `undefined` for every id. */
  function GetById(videoId: string): (r: Option<Video>)
    ensures r.None?
  {
    None
  }

  /** `getByTopic`: an empty body, so `undefined` for every topic. */
  function GetByTopic(topic: string): (r: Option<seq<Video>>)
    ensures r.None?
  {
    None
  }
}
