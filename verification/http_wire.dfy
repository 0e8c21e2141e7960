/**
 The bytes the client puts on the wire and the header text it looks for:
 the HTTP/1.1 request line and `Host` header of sections 3.1.1 and 5.4 of
 RFC 7230, and the two header fields used to frame the response body.
 */
module HttpWire {

  import opened Wrappers
  import opened Search

  /** One site to fetch. */
  datatype Target = Target(host: string, path: string)

  /** The blank line that ends a header section ("double end of line"). */
  const Delimiter: string := "\r\n\r\n"

  /** The field whose value gives the exact body length. */
  const ContentLengthField: string := "Content-Length: "

  /** The field announcing a chunked body. */
  const ChunkedField: string := "Transfer-Encoding: chunked"

  /** What separates the request target from the host name. */
  const VersionAndHost: string := " HTTP/1.1\r\nHost: "

  /** The GET request the client writes for `t`. */
  function RequestBytes(t: Target): (r: string)
    ensures |r| == |t.path| + |t.host| + 25
    ensures r[..4] == "GET " && r[|r| - 4..] == Delimiter
    ensures r[4..4 + |t.path|] == t.path && r[|r| - 4 - |t.host|..|r| - 4] == t.host
  {
    "GET " + t.path + VersionAndHost + t.host + Delimiter
  }

  /**
   Reads a request of the shape `RequestBytes` writes back into its target:
   the path runs up to the first space, the host up to the final blank line.
   */
  function ParseRequest(r: string): Option<Target> {
    if |r| < 25 || r[..4] != "GET " || r[|r| - 4..] != Delimiter then None
    else
      var middle := r[4..|r| - 4];
      match Find(middle, " ")
      case None => None
      case Some(i) =>
        var tail := middle[i..];
        if |tail| < |VersionAndHost| || tail[..|VersionAndHost|] != VersionAndHost then None
        else Some(Target(tail[|VersionAndHost|..], middle[..i]))
  }

  /** A target whose path has no space (as a request target never has) is read back from its request. */
  lemma RequestRoundTrip(t: Target)
    requires ' ' !in t.path
    ensures ParseRequest(RequestBytes(t)) == Some(t)
  {
    var r := RequestBytes(t);
    var middle := r[4..|r| - 4];
    assert middle == t.path + VersionAndHost + t.host;
    var p := |t.path|;
    assert OccursAt(middle, " ", p);
    forall j: nat | j < p
      ensures !OccursAt(middle, " ", j)
    {
      assert middle[j] == t.path[j];
    }
    FirstIsFound(middle, " ", p);
    assert middle[p..][..|VersionAndHost|] == VersionAndHost;
    assert middle[p..][|VersionAndHost|..] == t.host;
    assert middle[..p] == t.path;
  }

  /** Whatever `ParseRequest` accepts is exactly the request written for the target it returns. */
  lemma ParsedRequestIsWritten(r: string)
    requires ParseRequest(r).Some?
    ensures RequestBytes(ParseRequest(r).value) == r
    ensures ' ' !in ParseRequest(r).value.path
  {
    var middle := r[4..|r| - 4];
    var i := Find(middle, " ").value;
    var tail := middle[i..];
    var t := ParseRequest(r).value;
    assert t == Target(tail[|VersionAndHost|..], middle[..i]);
    ThreeParts(middle, i, |VersionAndHost|);
    ThreeParts(r, 4, |r| - 8);
    PathBeforeFirstSpace(middle, i);
  }

  /**
   The path is written unchecked, so without the no-space requirement two
   different targets can produce the same request: a path that carries the
   version and a `Host: ` line of its own collides with a host that does.
   */
  lemma UncheckedPathCollides(host: string, path: string, x: string)
    ensures Target(x + VersionAndHost + host, path) != Target(host, path + VersionAndHost + x)
    ensures RequestBytes(Target(x + VersionAndHost + host, path)) ==
            RequestBytes(Target(host, path + VersionAndHost + x))
  {
    assert |path + VersionAndHost + x| != |path|;
  }

  /** A sequence is its three consecutive slices put together. */
  lemma ThreeParts(s: string, i: nat, n: nat)
    requires i + n <= |s|
    ensures s == s[..i] + s[i..][..n] + s[i..][n..]
  {
  }

  /** The text before the first space contains no space. */
  lemma PathBeforeFirstSpace(s: string, i: nat)
    requires Find(s, " ") == Some(i)
    ensures ' ' !in s[..i]
  {
    FindSpec(s, " ");
    forall j | 0 <= j < i
      ensures s[j] != ' '
    {
      assert !OccursAt(s, " ", j);
      assert s[j..j + 1] == [s[j]];
    }
  }
}
