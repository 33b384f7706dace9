/**
 * The part of an Express response object the handlers use: a status code, a
 * header map that `setHeader` overwrites key by key, and what is sent as body.
 */
module Http {
  import opened Wrappers

  /** What the response carries: nothing yet, a text sent with `send`, or a
      file stream piped into it, the whole file or the bytes `start..end`. */
  datatype Body =
    | NoBody
    | Text(text: string)
    | WholeFile
    | ByteSpan(start: int, end: int)

  /** The observable state of a response. */
  datatype Reply = Reply(status: int, headers: map<string, string>, body: Body)

  /** Reply `r` with header `name` set to `value`, as `res.setHeader` does. */
  function WithHeader(r: Reply, name: string, value: string): (r': Reply)
    ensures r'.headers.Keys == r.headers.Keys + {name}
    ensures name in r'.headers && r'.headers[name] == value
    ensures forall k :: k in r.headers && k != name ==> r'.headers[k] == r.headers[k]
    ensures r'.status == r.status && r'.body == r.body
  {
    r.(headers := r.headers[name := value])
  }

  class Response {
    var status: int
    var headers: map<string, string>
    var body: Body

    /** A response as Express creates it: status 200, no headers, no body. */
    constructor ()
      ensures status == 200 && headers == map[] && body == NoBody
    {
      status, headers, body := 200, map[], NoBody;
    }

    function Snapshot(): Reply
      reads this
    {
      Reply(status, headers, body)
    }

    /** `res.status(code)` */
    method Status(code: int)
      modifies this
      ensures Snapshot() == old(Snapshot()).(status := code)
    {
      status := code;
    }

    /** `res.setHeader(name, value)` */
    method SetHeader(name: string, value: string)
      modifies this
      ensures Snapshot() == WithHeader(old(Snapshot()), name, value)
    {
      headers := headers[name := value];
    }

    /** `res.send(text)` */
    method Send(text: string)
      modifies this
      ensures Snapshot() == old(Snapshot()).(body := Text(text))
    {
      body := Text(text);
    }

    /** `createReadStream(...).pipe(res)` */
    method Pipe(stream: Body)
      requires stream.WholeFile? || stream.ByteSpan?
      modifies this
      ensures Snapshot() == old(Snapshot()).(body := stream)
    {
      body := stream;
    }
  }
}
