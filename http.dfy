/** The response side of net/http as the handler uses it: a header map that
    only matters until the first body byte goes out, a status fixed at that
    moment, and a body made of chunks. `http.Error` is modelled as net/http
    implements it. */
module Http {
  import opened Fs
  import opened Archive

  const StatusOK := 200
  const StatusBadRequest := 400
  const StatusNotFound := 404
  const StatusInternalServerError := 500

  const ContentDisposition := "Content-Disposition"
  const ContentType := "Content-Type"
  const ContentTypeOptions := "X-Content-Type-Options"
  const PlainText := "text/plain; charset=utf-8"

  /** A piece of response body: raw bytes, a whole ZIP archive (kept as its
      entries), or a line of error text. */
  datatype Chunk = Bytes(data: seq<byte>) | Zip(entries: seq<Entry>) | Message(line: string)

  /** The response as the client sees it. Once `committed` (status line and
      headers sent), later header changes and status codes are not seen. */
  datatype Reply = Reply(status: int, header: map<string, string>, body: seq<Chunk>, committed: bool)

  /** The response a handler starts from. */
  function Fresh(): Reply
  {
    Reply(StatusOK, map[], [], false)
  }

  /** `w.Header().Set(key, value)`. */
  function WithHeader(r: Reply, key: string, value: string): (r': Reply)
    ensures r.committed ==> r' == r
    ensures !r.committed ==> key in r'.header && r'.header[key] == value
    ensures !r.committed ==> forall k :: k in r.header && k != key ==> k in r'.header && r'.header[k] == r.header[k]
    ensures r'.header.Keys <= r.header.Keys + {key}
    ensures r'.status == r.status && r'.body == r.body && r'.committed == r.committed
  {
    if r.committed then r else r.(header := r.header[key := value])
  }

  /** `w.Write`: the first write commits the status and the headers. */
  function Sent(r: Reply, c: Chunk): (r': Reply)
    ensures r'.committed && r'.body == r.body + [c]
    ensures r'.status == r.status && r'.header == r.header
  {
    r.(body := r.body + [c], committed := true)
  }

  /** `io.Copy(w, src)` from a source yielding `data`: no write at all when
      there is nothing to copy. */
  function Copied(r: Reply, data: seq<byte>): (r': Reply)
    ensures r'.body == r.body + Raw(data)
    ensures r'.committed <==> r.committed || data != []
    ensures r'.status == r.status && r'.header == r.header
  {
    if data == [] then r else Sent(r, Bytes(data))
  }

  /** `http.Error(w, msg, code)`: switch the content type to plain text, set
      the status and write the message line. Before the response is
      committed the client sees the error status and the plain-text type;
      after, it only sees the message appended to what was already sent. */
  function Failed(r: Reply, msg: string, code: int): (r': Reply)
    ensures r'.committed && r'.body == r.body + [Message(msg + "\n")]
    ensures !r.committed ==>
      r'.status == code && r'.header == r.header[ContentType := PlainText][ContentTypeOptions := "nosniff"]
    ensures r.committed ==> r'.status == r.status && r'.header == r.header
  {
    var h := WithHeader(WithHeader(r, ContentType, PlainText), ContentTypeOptions, "nosniff");
    Sent(h.(status := if r.committed then r.status else code), Message(msg + "\n"))
  }

  /** The body `io.Copy` writes for a source yielding `data`. */
  function Raw(data: seq<byte>): seq<Chunk>
  {
    if data == [] then [] else [Bytes(data)]
  }

  /** The `http.ResponseWriter` a handler writes to. */
  class Response {
    var status: int
    var header: map<string, string>
    var body: seq<Chunk>
    var committed: bool

    function Value(): Reply
      reads this
    {
      Reply(status, header, body, committed)
    }

    constructor ()
      ensures Value() == Fresh()
    {
      status, header, body, committed := StatusOK, map[], [], false;
    }

    method SetHeader(key: string, value: string)
      modifies this
      ensures Value() == WithHeader(old(Value()), key, value)
    {
      if !committed {
        header := header[key := value];
      }
    }

    method Write(c: Chunk)
      modifies this
      ensures Value() == Sent(old(Value()), c)
    {
      body := body + [c];
      committed := true;
    }

    method Copy(data: seq<byte>)
      modifies this
      ensures Value() == Copied(old(Value()), data)
    {
      if data != [] {
        Write(Bytes(data));
      }
    }

    method Error(msg: string, code: int)
      modifies this
      ensures Value() == Failed(old(Value()), msg, code)
    {
      SetHeader(ContentType, PlainText);
      SetHeader(ContentTypeOptions, "nosniff");
      if !committed {
        status := code;
      }
      Write(Message(msg + "\n"));
    }
  }
}
