/**
 * The camera lookup of the Java program (Main.setHttpCamera), after the wait
 * for the robot: find the named camera in the registry and rewrite its
 * "mjpg" stream URLs into the list an HttpCamera is built from.
 */
module JavaHttpCamera {
  import opened Wrappers
  import opened StreamUrls

  /**
   * The outcome of setHttpCamera: null, a camera over the rewritten URLs, or
   * the ArrayIndexOutOfBoundsException thrown by `split(":", 2)[1]` on an
   * "mjpg" URL without a colon.
   */
  datatype Discovery = Null | HttpCamera(urls: seq<string>) | ArrayIndexOutOfBounds

  /**
   * String.split(":", 2): at most two parts, cut at the first colon; a
   * string without a colon comes back whole as the only part.
   */
  function SplitLimit2(s: string): (parts: seq<string>)
    ensures |parts| == if ':' in s then 2 else 1
    ensures |parts| == 1 ==> parts[0] == s
    ensures |parts| == 2 ==> s == parts[0] + ":" + parts[1] && ':' !in parts[0]
  {
    match FirstColon(s)
    case None => [s]
    case Some(i) =>
      assert s == s[..i] + ":" + s[i + 1..];
      [s[..i], s[i + 1..]]
  }

  /**
   * The fixed URL list: None when some "mjpg" URL has no colon (the loop
   * throws), otherwise the text after the first colon of each "mjpg" URL, in order.
   */
  function FixedUrls(streams: seq<string>): (r: Option<seq<string>>)
    ensures r.None? <==> exists u :: u in streams && IsMjpg(u) && ':' !in u
    ensures r.Some? ==> |r.value| == |MjpgStreams(streams)| <= |streams|
    ensures r.Some? ==> forall k :: 0 <= k < |r.value| ==>
              IsTailAfterFirstColon(MjpgStreams(streams)[k], r.value[k])
  {
    var kept := MjpgStreams(streams);
    if forall u :: u in kept ==> ':' in u then
      var fixed := seq(|kept|, k requires 0 <= k < |kept| => SplitLimit2(kept[k])[1]);
      assert forall k :: 0 <= k < |kept| ==> IsTailAfterFirstColon(kept[k], fixed[k]) by {
        forall k | 0 <= k < |kept| ensures IsTailAfterFirstColon(kept[k], fixed[k]) {
          assert kept[k] in kept;
          var parts := SplitLimit2(kept[k]);
          TailAfterFirstColon(kept[k], parts[0], parts[1]);
        }
      }
      Some(fixed)
    else
      None
  }

  /**
   * setHttpCamera without its wait loop: null for an unknown camera or a
   * missing "streams" entry, the exception for a colon-free "mjpg" URL,
   * otherwise a camera over FixedUrls (an empty "streams" array gives a
   * camera with no URLs).
   */
  method SetHttpCamera(registry: Registry, cameraName: string) returns (camera: Discovery)
    ensures cameraName !in registry ==> camera == Null
    ensures cameraName in registry && registry[cameraName].None? ==> camera == Null
    ensures cameraName in registry && registry[cameraName].Some? ==>
              camera == match FixedUrls(registry[cameraName].value)
                        case None => ArrayIndexOutOfBounds
                        case Some(fixed) => HttpCamera(fixed)
  {
    if cameraName !in registry {
      return Null;
    }
    var urls := registry[cameraName];
    if urls.None? {
      return Null;
    }
    var streams := urls.value;
    var fixedUrls: seq<string> := [];
    for i := 0 to |streams|
      invariant forall u :: u in MjpgStreams(streams[..i]) ==> ':' in u
      invariant |fixedUrls| == |MjpgStreams(streams[..i])|
      invariant forall k :: 0 <= k < |fixedUrls| ==>
                  fixedUrls[k] == SplitLimit2(MjpgStreams(streams[..i])[k])[1]
    {
      var url := streams[i];
      assert streams[..i + 1] == streams[..i] + [url];
      MjpgStreamsAppend(streams[..i], [url]);
      if StartsWith(url, MjpgScheme) {
        var parts := SplitLimit2(url);
        if |parts| < 2 {
          assert url in streams;
          return ArrayIndexOutOfBounds;
        }
        fixedUrls := fixedUrls + [parts[1]];
      }
    }
    assert streams[..|streams|] == streams;
    return HttpCamera(fixedUrls);
  }
}
