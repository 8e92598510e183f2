/** What the downloader and the code-list helper see of the outside world: the
    files on disk, the URLs they fetch, and the HTTP replies they get back. */
module Env {
  import opened Wrappers

  type Bytes = seq<bv8>

  /** The process's file system and network log. `files` maps every existing
      file path to its contents; `requests` lists the URLs fetched, in order. */
  class Host {
    var files: map<string, Bytes>
    var requests: seq<string>

    constructor (initial: map<string, Bytes>)
      ensures files == initial && requests == []
    {
      files := initial;
      requests := [];
    }
  }

  /** A streamed HTTP reply: the status, the `Content-Disposition` header
      (`""` when absent) and the body as the chunks the stream yields. */
  datatype Response =
    | ConnectionFailed
    | Reply(status: int, disposition: string, chunks: seq<Bytes>)

  /** The statuses `raise_for_status` raises for: client and server errors. */
  predicate IsHttpError(status: int) { 400 <= status < 600 }

  /** The body of a reply read in one piece. */
  function Concat(chunks: seq<Bytes>): (b: Bytes)
    ensures |chunks| == 1 ==> b == chunks[0]
    decreases |chunks|
  {
    if chunks == [] then [] else chunks[0] + Concat(chunks[1..])
  }

  lemma {:induction false} ConcatAppend(chunks: seq<Bytes>, c: Bytes)
    ensures Concat(chunks + [c]) == Concat(chunks) + c
    decreases |chunks|
  {
    if chunks == [] {
      assert [] + [c] == [c];
    } else {
      assert (chunks + [c])[1..] == chunks[1..] + [c];
      ConcatAppend(chunks[1..], c);
    }
  }

  /** What an effectful step leaves behind: the new files, the URLs it
      fetched (to be appended to the log) and its result. */
  datatype Effect<T> = Effect(files: map<string, Bytes>, fetched: seq<string>, result: T)

  /** One member of a ZIP archive, in central-directory order. */
  datatype Entry = Entry(name: string, data: Bytes)

  function Names(entries: seq<Entry>): (r: seq<string>)
    ensures |r| == |entries| && forall k :: 0 <= k < |r| ==> r[k] == entries[k].name
  {
    seq(|entries|, k requires 0 <= k < |entries| => entries[k].name)
  }
}
