/** The upload as a handler receives it: a named, typed, seekable byte stream. */
module Uploads {
  import opened Http

  type Byte = bv8

  /** A spooled upload file: its whole contents and the current read position. */
  datatype Stream = Stream(data: seq<Byte>, pos: nat)

  /** FastAPI's `UploadFile`: the client's filename and content type (both optional) and the stream. */
  datatype UploadFile = UploadFile(filename: Option<string>, contentType: Option<string>, stream: Stream)

  /** `read(n)`: at most `n` bytes from the current position, advancing past them. */
  function Read(s: Stream, n: nat): (r: (seq<Byte>, Stream))
    ensures |r.0| <= n
    ensures r.1.data == s.data && r.1.pos == s.pos + |r.0|
    ensures s.pos <= |s.data| ==> s.pos + |r.0| <= |s.data| && r.0 == s.data[s.pos..s.pos + |r.0|]
    ensures s.pos <= |s.data| ==> |r.0| == if s.pos + n <= |s.data| then n else |s.data| - s.pos
    ensures s.pos >= |s.data| ==> r.0 == []
  {
    if s.pos >= |s.data| then ([], s)
    else
      var end := if s.pos + n <= |s.data| then s.pos + n else |s.data|;
      (s.data[s.pos..end], s.(pos := end))
  }

  /** `read()` with no size: everything from the current position to the end. */
  function ReadAll(s: Stream): (r: (seq<Byte>, Stream))
    ensures r.1.data == s.data && r.1.pos == s.pos + |r.0|
    ensures s.pos <= |s.data| ==> r.0 == s.data[s.pos..] && r.1.pos == |s.data|
    ensures s.pos >= |s.data| ==> r.0 == []
    ensures s.pos == 0 ==> r.0 == s.data
  {
    Read(s, if s.pos <= |s.data| then |s.data| - s.pos else 0)
  }

  /** `seek(0)`. */
  function Rewind(s: Stream): (r: Stream)
    ensures r.data == s.data && r.pos == 0
  {
    s.(pos := 0)
  }

  /** The first `n` bytes of `data`, or all of it when it is shorter. */
  function Prefix(data: seq<Byte>, n: nat): (r: seq<Byte>)
    ensures |r| <= n && |r| <= |data| && r == data[..|r|]
    ensures |r| == n || r == data
  {
    if |data| <= n then data else data[..n]
  }
}
