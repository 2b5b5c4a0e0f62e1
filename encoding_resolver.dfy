/** Encoding recovery for the attribute table: the candidate encodings are tried
    in a fixed order and the first one under which the dataset can be read wins. */
module EncodingResolver {
  import opened Wrappers
  import opened GeoData

  /** The candidate encodings, in the order they are tried. */
  const Encodings: seq<string> := ["gbk", "gb2312", "utf-8", "cp936", "latin1"]

  /** What one attempt to read the shapefile under one encoding gives: the dataset,
      a decoding error, or any other exception. */
  datatype ReadOutcome =
    | Loaded(dataset: Dataset)
    | DecodeError
    | ReadError(message: string)

  /** The winning encoding and the dataset read under it. */
  datatype Resolved = Resolved(encoding: string, dataset: Dataset)

  /** Index `i` is the first candidate whose read succeeds. */
  ghost predicate FirstLoadedAt(encodings: seq<string>, read: string -> ReadOutcome, i: int)
  {
    0 <= i < |encodings| &&
    read(encodings[i]).Loaded? &&
    forall j :: 0 <= j < i ==> !read(encodings[j]).Loaded?
  }

  /** The result of trying `encodings` in order with the read oracle `read`. */
  function FirstReadable(encodings: seq<string>, read: string -> ReadOutcome): Option<Resolved>
    decreases |encodings|
  {
    if encodings == [] then None
    else match read(encodings[0])
      case Loaded(ds) => Some(Resolved(encodings[0], ds))
      case _ => FirstReadable(encodings[1..], read)
  }

  /** The resolved encoding is the first candidate that reads successfully, together
      with what it read; decoding errors and other errors both move on; nothing is
      resolved exactly when every candidate fails. */
  lemma {:induction false} FirstReadableIsFirstSuccess(encodings: seq<string>, read: string -> ReadOutcome)
    ensures FirstReadable(encodings, read).None? <==>
            forall i :: 0 <= i < |encodings| ==> !read(encodings[i]).Loaded?
    ensures FirstReadable(encodings, read).Some? ==>
            exists i :: FirstLoadedAt(encodings, read, i) &&
                        FirstReadable(encodings, read) == Some(Resolved(encodings[i], read(encodings[i]).dataset))
    decreases |encodings|
  {
    if encodings != [] {
      var tail := encodings[1..];
      FirstReadableIsFirstSuccess(tail, read);
      if read(encodings[0]).Loaded? {
        assert FirstLoadedAt(encodings, read, 0);
      } else {
        forall i | 0 <= i < |tail| ensures tail[i] == encodings[i + 1] { }
        if FirstReadable(tail, read).Some? {
          var i :| FirstLoadedAt(tail, read, i) &&
                   FirstReadable(tail, read) == Some(Resolved(tail[i], read(tail[i]).dataset));
          assert FirstLoadedAt(encodings, read, i + 1) by {
            forall j | 0 <= j < i + 1 ensures !read(encodings[j]).Loaded? {
              if j > 0 { assert encodings[j] == tail[j - 1]; }
            }
          }
        } else {
          forall i | 0 <= i < |encodings| ensures !read(encodings[i]).Loaded? {
            if i > 0 { assert encodings[i] == tail[i - 1]; }
          }
        }
      }
    }
  }

  /** The encoding loop: tries each candidate in turn and stops at the first read
      that succeeds. */
  method ResolveEncoding(read: string -> ReadOutcome) returns (r: Option<Resolved>)
    ensures r == FirstReadable(Encodings, read)
  {
    r := None;
    var i := 0;
    while i < |Encodings|
      invariant 0 <= i <= |Encodings|
      invariant FirstReadable(Encodings, read) == FirstReadable(Encodings[i..], read)
    {
      var encoding := Encodings[i];
      var outcome := read(encoding);
      if outcome.Loaded? {
        r := Some(Resolved(encoding, outcome.dataset));
        break;
      }
      assert Encodings[i..][1..] == Encodings[i + 1..];
      i := i + 1;
    }
  }

  /** A table that reads under GBK, the first candidate, is resolved as GBK whatever
      the later candidates would give. */
  lemma GbkReadableResolvesToGbk(read: string -> ReadOutcome)
    requires read("gbk").Loaded?
    ensures FirstReadable(Encodings, read) == Some(Resolved("gbk", read("gbk").dataset))
  {
  }
}
