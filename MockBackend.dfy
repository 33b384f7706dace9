/**
 * The mock catalog backend: a list of full video records kept in a JSON file,
 * four handlers over it (list, by topic, by id, add). The file is the `videos`
 * sequence (or the `VideoStore` object for the handler that writes it); every
 * handler answers a status with a JSON payload or an `{ error }` object.
 */
module MockBackend {
  import opened Wrappers
  import opened JsStrings

  /** A stored record. `duration` is a JavaScript number of seconds. */
  datatype MockVideo = MockVideo(
    id: string,
    topic: string,
    description: string,
    duration: real,
    thumbnail: string)

  /** An element of the list endpoint: the record without its description. */
  datatype ListItem = ListItem(id: string, topic: string, duration: real, thumbnail: string)

  /** What a handler sends: `res.json(data)` with a status, or
      `res.status(code).json({ error })`. */
  datatype Answer<T> = Ok(status: int, data: T) | Fail(status: int, error: string)

  const MissingFieldsText := "Missing required fields"
  const DuplicateIdText := "Video ID already exists"

  /** The records written to a fresh data file. */
  const InitialVideos: seq<MockVideo> := [
    MockVideo(
      "big-buck-bunny", "animation",
      "Big Buck Bunny is a short computer animated comedy film by the Blender Institute. It features a large rabbit who gets revenge on three rodents.",
      604.12, "https://peach.blender.org/wp-content/uploads/big_buck_bunny_poster.jpg"),
    MockVideo(
      "sintel", "animation",
      "Sintel is a fantasy CGI film about a girl who befriends a baby dragon and goes on a journey to find it after it's taken.",
      888.45, "https://mango.blender.org/wp-content/uploads/2010/09/sintel_poster.jpg"),
    MockVideo(
      "elephants-dream", "experimental",
      "Elephants Dream is the world's first open movie, made entirely with open source graphics software. It explores surreal themes in a strange world.",
      653.78, "https://orange.blender.org/wp-content/uploads/elephants_dream_poster.jpg")
  ]

  // ------------------------------------------------------------------ GET /api/videolist

  function Summary(v: MockVideo): ListItem {
    ListItem(v.id, v.topic, v.duration, v.thumbnail)
  }

  /** `videos.map(v => ({ id, topic, duration, thumbnail }))` */
  function ListVideos(videos: seq<MockVideo>): (list: seq<ListItem>)
    ensures |list| == |videos|
    ensures forall i :: 0 <= i < |videos| ==>
      && list[i].id == videos[i].id && list[i].topic == videos[i].topic
      && list[i].duration == videos[i].duration && list[i].thumbnail == videos[i].thumbnail
  {
    if videos == [] then [] else [Summary(videos[0])] + ListVideos(videos[1..])
  }

  /** The list endpoint always answers 200, with the summary of every stored
      video, in stored order. */
  function GetList(videos: seq<MockVideo>): (a: Answer<seq<ListItem>>)
    ensures a.Ok? && a.status == 200 && a.data == ListVideos(videos)
    ensures |a.data| == |videos|
    ensures forall i :: 0 <= i < |videos| ==>
      && a.data[i].id == videos[i].id && a.data[i].topic == videos[i].topic
      && a.data[i].duration == videos[i].duration && a.data[i].thumbnail == videos[i].thumbnail
  {
    Ok(200, ListVideos(videos))
  }

  lemma {:induction false} ListVideosAppend(a: seq<MockVideo>, b: seq<MockVideo>)
    ensures ListVideos(a + b) == ListVideos(a) + ListVideos(b)
    decreases |a|
  {
    if a == [] {
      assert a + b == b;
    } else {
      assert (a + b)[0] == a[0] && (a + b)[1..] == a[1..] + b;
      ListVideosAppend(a[1..], b);
    }
  }

  // ------------------------------------------------------------------ GET /api/videolist/:topic

  /** `v.topic.toLowerCase() === topic.toLowerCase()` */
  predicate SameTopic(stored: string, query: string) {
    ToLower(stored) == ToLower(query)
  }

  /** `videos.filter(...)`: the records whose topic matches, in stored order. */
  function FilterTopic(videos: seq<MockVideo>, topic: string): (r: seq<MockVideo>)
    ensures |r| <= |videos|
    ensures forall v :: v in r <==> v in videos && SameTopic(v.topic, topic)
  {
    if videos == [] then []
    else (if SameTopic(videos[0].topic, topic) then [videos[0]] else []) + FilterTopic(videos[1..], topic)
  }

  /** An empty result is a 404 with the topic in the message, never an empty 200. */
  function GetByTopic(videos: seq<MockVideo>, topic: string): (a: Answer<seq<MockVideo>>)
    ensures a.Ok? <==> exists v :: v in videos && SameTopic(v.topic, topic)
    ensures a.Ok? ==> a.status == 200 && a.data == FilterTopic(videos, topic) && a.data != []
    ensures a.Fail? ==> a.status == 404 && a.error == "No videos found for topic: " + topic
  {
    var filtered := FilterTopic(videos, topic);
    if |filtered| == 0 then Fail(404, "No videos found for topic: " + topic)
    else
      assert filtered[0] in filtered;
      Ok(200, filtered)
  }

  /** Filtering distributes over concatenation, so stored order is kept. */
  lemma {:induction false} FilterTopicAppend(a: seq<MockVideo>, b: seq<MockVideo>, topic: string)
    ensures FilterTopic(a + b, topic) == FilterTopic(a, topic) + FilterTopic(b, topic)
    decreases |a|
  {
    if a == [] {
      assert a + b == b;
    } else {
      assert (a + b)[0] == a[0] && (a + b)[1..] == a[1..] + b;
      FilterTopicAppend(a[1..], b, topic);
    }
  }

  /** The query is compared without regard to ASCII case. */
  lemma TopicQueryIgnoresCase(videos: seq<MockVideo>, topic: string)
    ensures GetByTopic(videos, ToLower(topic)) == GetByTopic(videos, topic)
      || (GetByTopic(videos, topic).Fail? && GetByTopic(videos, ToLower(topic)).Fail?)
    ensures FilterTopic(videos, ToLower(topic)) == FilterTopic(videos, topic)
  {
    ToLowerIdempotent(topic);
    FilterSameQuery(videos, ToLower(topic), topic);
  }

  lemma {:induction false} FilterSameQuery(videos: seq<MockVideo>, q1: string, q2: string)
    requires ToLower(q1) == ToLower(q2)
    ensures FilterTopic(videos, q1) == FilterTopic(videos, q2)
    decreases |videos|
  {
    if videos != [] {
      FilterSameQuery(videos[1..], q1, q2);
    }
  }

  lemma LowerAnimation()
    ensures ToLower("ANIMATION") == "animation"
  {
    assert ToLower("ANIMATION") == "animation";
  }

  lemma AnimationTopic(x: MockVideo)
    requires x.topic == "animation"
    ensures SameTopic(x.topic, "ANIMATION")
  {
    LowerAnimation();
    assert ToLower("animation") == "animation";
  }

  lemma ExperimentalTopic(x: MockVideo)
    requires x.topic == "experimental"
    ensures !SameTopic(x.topic, "ANIMATION")
  {
    assert |ToLower("experimental")| == 12;
    assert |ToLower("ANIMATION")| == 9;
  }

  lemma AnimationFilter(a: MockVideo, b: MockVideo, c: MockVideo)
    requires a.topic == "animation" && b.topic == "animation" && c.topic == "experimental"
    ensures FilterTopic([a, b, c], "ANIMATION") == [a, b]
  {
    AnimationTopic(a);
    AnimationTopic(b);
    ExperimentalTopic(c);
    FilterTwoOfThree(a, b, c, "ANIMATION");
  }

  lemma FilterTwoOfThree(a: MockVideo, b: MockVideo, c: MockVideo, topic: string)
    requires SameTopic(a.topic, topic) && SameTopic(b.topic, topic) && !SameTopic(c.topic, topic)
    ensures FilterTopic([a, b, c], topic) == [a, b]
  {
    assert [a, b, c][0] == a && [a, b, c][1..] == [b, c];
    assert [b, c][0] == b && [b, c][1..] == [c];
    assert [c][0] == c && [c][1..] == [];
    assert FilterTopic([c], topic) == [];
    assert FilterTopic([b, c], topic) == [b];
    assert FilterTopic([a, b, c], topic) == [a] + [b];
  }

  /** Two "animation" records and one "experimental" record: the query
      "ANIMATION" finds the first two, in order. */
  lemma AnimationQuery(a: MockVideo, b: MockVideo, c: MockVideo)
    requires a.topic == "animation" && b.topic == "animation" && c.topic == "experimental"
    ensures GetByTopic([a, b, c], "ANIMATION") == Ok(200, [a, b])
  {
    AnimationFilter(a, b, c);
  }

  /** On the initial data, "ANIMATION" finds both animation films, in order. */
  lemma InitialAnimation()
    ensures GetByTopic(InitialVideos, "ANIMATION") == Ok(200, [InitialVideos[0], InitialVideos[1]])
  {
    var v := InitialVideos;
    assert v == [v[0], v[1], v[2]];
    AnimationQuery(v[0], v[1], v[2]);
  }

  // ------------------------------------------------------------------ GET /api/videolist/:id

  /** The index `videos.find(v => v.id === id)` stops at. */
  function FindId(videos: seq<MockVideo>, id: string): (r: Option<nat>)
    ensures r.Some? ==> r.value < |videos| && videos[r.value].id == id
    ensures forall j :: 0 <= j < |videos| && (r.None? || j < r.value) ==> videos[j].id != id
  {
    if videos == [] then None
    else if videos[0].id == id then Some(0)
    else match FindId(videos[1..], id)
      case None => None
      case Some(k) => Some(k + 1)
  }

  /** The first record with exactly this id (case matters), or 404. */
  function GetById(videos: seq<MockVideo>, id: string): (a: Answer<MockVideo>)
    ensures a.Ok? <==> exists j :: 0 <= j < |videos| && videos[j].id == id
    ensures a.Ok? ==> a.status == 200 && a.data.id == id
    ensures a.Ok? ==>
      exists k :: 0 <= k < |videos| && videos[k] == a.data && forall j :: 0 <= j < k ==> videos[j].id != id
    ensures a.Fail? ==> a.status == 404 && a.error == "Video not found: " + id
  {
    match FindId(videos, id)
    case None => Fail(404, "Video not found: " + id)
    case Some(k) => Ok(200, videos[k])
  }

  /** Records after the first match are never looked at. */
  lemma {:induction false} FindIdAppend(a: seq<MockVideo>, b: seq<MockVideo>, id: string)
    ensures FindId(a + b, id) == match FindId(a, id)
      case Some(k) => Some(k)
      case None => match FindId(b, id) case None => None case Some(k) => Some(|a| + k)
    decreases |a|
  {
    if a == [] {
      assert a + b == b;
    } else {
      assert (a + b)[0] == a[0] && (a + b)[1..] == a[1..] + b;
      FindIdAppend(a[1..], b, id);
    }
  }

  // ------------------------------------------------------------------ POST /api/videolist

  /** A request body as parsed JSON: each field absent (or `null`) or present. */
  datatype PostBody = PostBody(
    id: Option<string>,
    topic: Option<string>,
    description: Option<string>,
    duration: Option<real>,
    thumbnail: Option<string>)

  /** A string field that JavaScript treats as true: present and not "". */
  predicate Given(s: Option<string>) {
    s.Some? && s.value != ""
  }

  /** None of the five fields is falsy; a duration of 0 counts as missing. */
  predicate Complete(body: PostBody) {
    && Given(body.id) && Given(body.topic) && Given(body.description)
    && body.duration.Some? && body.duration.value != 0.0
    && Given(body.thumbnail)
  }

  function Record(body: PostBody): MockVideo
    requires Complete(body)
  {
    MockVideo(body.id.value, body.topic.value, body.description.value, body.duration.value, body.thumbnail.value)
  }

  /** `videos.some(v => v.id === id)` */
  predicate IdTaken(videos: seq<MockVideo>, id: string) {
    FindId(videos, id).Some?
  }

  datatype PostResult = PostResult(answer: Answer<MockVideo>, store: seq<MockVideo>)

  /** The answer to a POST and the records stored afterwards. */
  function PostOutcome(videos: seq<MockVideo>, body: PostBody): PostResult {
    if !Complete(body) then PostResult(Fail(400, MissingFieldsText), videos)
    else if IdTaken(videos, body.id.value) then PostResult(Fail(400, DuplicateIdText), videos)
    else PostResult(Ok(201, Record(body)), videos + [Record(body)])
  }

  /** The data file as an object the POST handler appends to. */
  class VideoStore {
    var videos: seq<MockVideo>

    constructor (initial: seq<MockVideo>)
      ensures videos == initial
    {
      videos := initial;
    }

    /** `app.post('/api/videolist', ...)`: validate, reject a taken id, push, save, 201. */
    method Post(body: PostBody) returns (answer: Answer<MockVideo>)
      modifies this
      ensures PostResult(answer, videos) == PostOutcome(old(videos), body)
    {
      if !Complete(body) {
        return Fail(400, MissingFieldsText);
      }
      if IdTaken(videos, body.id.value) {
        return Fail(400, DuplicateIdText);
      }
      var newVideo := Record(body);
      videos := videos + [newVideo];
      answer := Ok(201, newVideo);
    }
  }

  /** The answer is "Missing required fields" exactly when a field is falsy,
      and such a body stores nothing. */
  lemma IncompletePostRejected(videos: seq<MockVideo>, body: PostBody)
    ensures PostOutcome(videos, body).answer == Fail(400, MissingFieldsText) <==> !Complete(body)
    ensures !Complete(body) ==> PostOutcome(videos, body).store == videos
  {
    assert MissingFieldsText != DuplicateIdText by {
      assert MissingFieldsText[0] != DuplicateIdText[0];
    }
  }

  /** A zero duration is as missing as an absent one. */
  lemma ZeroDurationRejected(videos: seq<MockVideo>, body: PostBody)
    requires body.duration == Some(0.0)
    ensures PostOutcome(videos, body).answer == Fail(400, MissingFieldsText)
    ensures PostOutcome(videos, body).store == videos
  {
  }

  /** A complete body whose id is already stored is rejected with 400 and
      stores nothing. */
  lemma DuplicatePostRejected(videos: seq<MockVideo>, body: PostBody, j: nat)
    requires Complete(body) && j < |videos| && videos[j].id == body.id.value
    ensures PostOutcome(videos, body) == PostResult(Fail(400, DuplicateIdText), videos)
  {
  }

  /** A POST succeeds exactly when the body is complete and its id is new; it
      then appends the record at the end, keeps every earlier record, and
      answers 201 with the record. */
  lemma PostAppends(videos: seq<MockVideo>, body: PostBody)
    ensures PostOutcome(videos, body).answer.Ok?
        <==> Complete(body) && forall j :: 0 <= j < |videos| ==> videos[j].id != body.id.value
    ensures var out := PostOutcome(videos, body);
      out.answer.Ok? ==>
        && out.answer.status == 201 && out.answer.data == Record(body)
        && |out.store| == |videos| + 1
        && out.store[..|videos|] == videos
        && out.store[|videos|] == Record(body)
  {
    var out := PostOutcome(videos, body);
    if out.answer.Ok? {
      assert out.store[..|videos|] == videos;
    }
  }

  predicate UniqueIds(videos: seq<MockVideo>) {
    forall i, j :: 0 <= i < j < |videos| ==> videos[i].id != videos[j].id
  }

  /** Posting keeps the ids of the store distinct. */
  lemma PostKeepsIdsUnique(videos: seq<MockVideo>, body: PostBody)
    requires UniqueIds(videos)
    ensures UniqueIds(PostOutcome(videos, body).store)
  {
  }

  /** After a successful POST the id lookup finds the new record. */
  lemma PostThenGetById(videos: seq<MockVideo>, body: PostBody)
    requires PostOutcome(videos, body).answer.Ok?
    ensures GetById(PostOutcome(videos, body).store, body.id.value) == Ok(200, Record(body))
  {
    var r := Record(body);
    FindIdAppend(videos, [r], r.id);
  }

  /** After a successful POST the list ends with the new record's summary. */
  lemma PostThenList(videos: seq<MockVideo>, body: PostBody)
    requires PostOutcome(videos, body).answer.Ok?
    ensures ListVideos(PostOutcome(videos, body).store) == ListVideos(videos) + [Summary(Record(body))]
  {
    ListVideosAppend(videos, [Record(body)]);
  }

  /** After a successful POST the lookup by its topic ends with the new record. */
  lemma PostThenTopic(videos: seq<MockVideo>, body: PostBody)
    requires PostOutcome(videos, body).answer.Ok?
    ensures FilterTopic(PostOutcome(videos, body).store, body.topic.value)
         == FilterTopic(videos, body.topic.value) + [Record(body)]
  {
    var r := Record(body);
    FilterTopicAppend(videos, [r], r.topic);
    assert FilterTopic([r][1..], r.topic) == [];
  }
}
