/**
 * What the Java and C++ camera lookups share: the camera registry published
 * by the robot, the "mjpg" scheme test and the search for the first colon.
 */
module StreamUrls {
  import opened Wrappers

  /**
   * The "CameraPublisher" table: one entry per published camera sub-table,
   * holding its "streams" string array, or None when the sub-table has no
   * "streams" entry.
   */
  type Registry = map<string, Option<seq<string>>>

  const MjpgScheme: string := "mjpg"

  predicate StartsWith(s: string, prefix: string) {
    |prefix| <= |s| && s[..|prefix|] == prefix
  }

  /** `url.startsWith("mjpg")`. */
  predicate IsMjpg(url: string) {
    StartsWith(url, MjpgScheme)
  }

  /** The stream URLs starting with "mjpg", in their original order. */
  function MjpgStreams(urls: seq<string>): (kept: seq<string>)
    ensures |kept| <= |urls|
    ensures forall u :: u in kept <==> u in urls && IsMjpg(u)
  {
    if urls == [] then []
    else (if IsMjpg(urls[0]) then [urls[0]] else []) + MjpgStreams(urls[1..])
  }

  /** Filtering distributes over concatenation: the kept URLs keep their relative order. */
  lemma {:induction false} MjpgStreamsAppend(a: seq<string>, b: seq<string>)
    ensures MjpgStreams(a + b) == MjpgStreams(a) + MjpgStreams(b)
    decreases |a|
  {
    if a == [] {
      assert a + b == b;
    } else {
      assert (a + b)[1..] == a[1..] + b;
      MjpgStreamsAppend(a[1..], b);
    }
  }

  /** With no "mjpg" URL, nothing is kept: a corollary of the membership clause of MjpgStreams. */
  lemma MjpgStreamsNone(urls: seq<string>)
    requires forall u :: u in urls ==> !IsMjpg(u)
    ensures MjpgStreams(urls) == []
  {
    var kept := MjpgStreams(urls);
    assert forall k :: 0 <= k < |kept| ==> kept[k] in kept;
  }

  /** The position of the first ':' of `s`, if any. */
  function FirstColon(s: string): (r: Option<nat>)
    ensures r.None? <==> ':' !in s
    ensures r.Some? ==> r.value < |s| && s[r.value] == ':' && ':' !in s[..r.value]
  {
    if s == [] then None
    else if s[0] == ':' then Some(0)
    else match FirstColon(s[1..])
      case None => None
      case Some(i) =>
        assert s[..i + 1] == [s[0]] + s[1..][..i];
        Some(i + 1)
  }

  /** `tail` is exactly what follows the first ':' of `url`. */
  ghost predicate IsTailAfterFirstColon(url: string, tail: string) {
    && |tail| < |url|
    && var prefix := url[..|url| - |tail| - 1];
       url == prefix + ":" + tail && ':' !in prefix
  }

  /** A string split at a colon-free prefix determines the tail. */
  lemma TailAfterFirstColon(url: string, prefix: string, tail: string)
    requires url == prefix + ":" + tail && ':' !in prefix
    ensures IsTailAfterFirstColon(url, tail)
  {
    assert url[..|url| - |tail| - 1] == prefix;
  }
}
