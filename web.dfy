/** The part of a Tornado request handler's state that the controllers change. */
module Web {
  import opened Json

  /** One piece of output: text given to `write`, or an object the handler sends as JSON. */
  datatype Chunk = Text(text: string) | JsonDoc(doc: Object)

  /** A request handler: the host the request was addressed to, the response status and
      headers set so far, the output chunks written so far, and whether `finish` was called.
      Handlers are made by Tornado for each request and are not constructed here. Only the
      state the controllers set is kept: the headers and status `finish` adds on its own
      (Content-Length, Etag, a 304) are not. */
  class Handler {
    const host: string
    var status: int
    var headers: map<string, string>
    var chunks: seq<Chunk>
    var finished: bool
  }

  /** The text of a sequence of text chunks, in the order they were written. */
  function Texts(chunks: seq<Chunk>): string
    requires forall i :: 0 <= i < |chunks| ==> chunks[i].Text?
  {
    if chunks == [] then "" else chunks[0].text + Texts(chunks[1..])
  }
}
