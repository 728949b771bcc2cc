/** The parts of an HTTP request to `/` that both servers read. */
module Requests {

  /** A multipart `file` part: its client-side filename and its bytes. */
  datatype FilePart = FilePart(filename: string, content: seq<bv8>)

  datatype Verb = Get | Post
}
