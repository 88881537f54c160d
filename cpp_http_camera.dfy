/**
 * The camera lookup of the C++ program (SetHttpCamera in main.cpp), after
 * the wait for the robot.
 */
module CppHttpCamera {
  import opened Wrappers
  import opened StreamUrls

  /** cs::VideoCamera: the empty default handle, or an HttpCamera over its URLs. */
  datatype VideoCamera = Empty | HttpCamera(urls: seq<string>)

  /**
   * StringRef::split(":"): the text before and after the first colon; with
   * no colon, the whole string and the empty string.
   */
  function SplitAtColon(s: string): (r: (string, string))
    ensures ':' in s ==> s == r.0 + ":" + r.1 && ':' !in r.0
    ensures ':' !in s ==> r == (s, "")
  {
    match FirstColon(s)
    case None => (s, "")
    case Some(i) =>
      assert s == s[..i] + ":" + s[i + 1..];
      (s[..i], s[i + 1..])
  }

  /**
   * The fixed URL list: for each "mjpg" URL, in order, the text after its
   * first colon, or "" when it has none.
   */
  function FixedUrls(streams: seq<string>): (r: seq<string>)
    ensures |r| == |MjpgStreams(streams)| <= |streams|
    ensures forall k :: 0 <= k < |r| && ':' in MjpgStreams(streams)[k] ==>
              IsTailAfterFirstColon(MjpgStreams(streams)[k], r[k])
    ensures forall k :: 0 <= k < |r| && ':' !in MjpgStreams(streams)[k] ==> r[k] == ""
  {
    var kept := MjpgStreams(streams);
    var fixed := seq(|kept|, k requires 0 <= k < |kept| => SplitAtColon(kept[k]).1);
    assert forall k :: 0 <= k < |kept| && ':' in kept[k] ==> IsTailAfterFirstColon(kept[k], fixed[k]) by {
      forall k | 0 <= k < |kept| && ':' in kept[k] ensures IsTailAfterFirstColon(kept[k], fixed[k]) {
        var parts := SplitAtColon(kept[k]);
        TailAfterFirstColon(kept[k], parts.0, parts.1);
      }
    }
    fixed
  }

  /**
   * SetHttpCamera without its wait loop: the empty camera for an unknown
   * name or a missing or empty "streams" array (GetStringArray reads a
   * missing entry as its default, the empty array), otherwise a camera over
   * FixedUrls, even when no URL is kept.
   */
  method SetHttpCamera(registry: Registry, cameraName: string) returns (camera: VideoCamera)
    ensures camera == Empty <==>
              cameraName !in registry || registry[cameraName] == None || registry[cameraName] == Some([])
    ensures camera.HttpCamera? ==> camera.urls == FixedUrls(registry[cameraName].value)
  {
    if cameraName !in registry {
      return Empty;
    }
    var urls := match registry[cameraName] case None => [] case Some(streams) => streams;
    if |urls| == 0 {
      return Empty;
    }
    var fixedUrls: seq<string> := [];
    for i := 0 to |urls|
      invariant |fixedUrls| == |MjpgStreams(urls[..i])|
      invariant forall k :: 0 <= k < |fixedUrls| ==> fixedUrls[k] == SplitAtColon(MjpgStreams(urls[..i])[k]).1
    {
      var url := urls[i];
      assert urls[..i + 1] == urls[..i] + [url];
      MjpgStreamsAppend(urls[..i], [url]);
      if StartsWith(url, MjpgScheme) {
        fixedUrls := fixedUrls + [SplitAtColon(url).1];
      }
    }
    assert urls[..|urls|] == urls;
    return HttpCamera(fixedUrls);
  }
}
