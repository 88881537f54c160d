/** How the Java and the C++ camera lookups relate on the same "streams" array. */
module HttpCameraVersions {
  import opened Wrappers
  import opened StreamUrls
  import JavaHttpCamera
  import CppHttpCamera

  /** On a URL with a colon, Java's `split(":", 2)[1]` and C++'s `split(":").second` agree. */
  lemma SplitsAgree(url: string)
    requires ':' in url
    ensures JavaHttpCamera.SplitLimit2(url)[1] == CppHttpCamera.SplitAtColon(url).1
  {
  }

  /**
   * When every "mjpg" URL has a colon, both versions build the same URL
   * list; otherwise Java throws and C++ puts "" for each colon-free one.
   */
  lemma FixedUrlsAgree(streams: seq<string>)
    ensures var java := JavaHttpCamera.FixedUrls(streams);
            var cpp := CppHttpCamera.FixedUrls(streams);
            && (java.Some? ==> java.value == cpp)
            && (java.None? ==> exists k :: 0 <= k < |cpp| && cpp[k] == "" && ':' !in MjpgStreams(streams)[k])
  {
    var kept := MjpgStreams(streams);
    var java := JavaHttpCamera.FixedUrls(streams);
    var cpp := CppHttpCamera.FixedUrls(streams);
    if java.Some? {
      forall k | 0 <= k < |kept| ensures java.value[k] == cpp[k] {
        var u := kept[k];
        assert u in kept;
        if ':' in u {
          SplitsAgree(u);
          TailAfterFirstColon(u, JavaHttpCamera.SplitLimit2(u)[0], java.value[k]);
        }
      }
    } else {
      var u :| u in streams && IsMjpg(u) && ':' !in u;
      assert u in kept;
      var k :| 0 <= k < |kept| && kept[k] == u;
      assert cpp[k] == "";
    }
  }

  /** A "streams" array with no "mjpg" URL gives an empty URL list in both versions. */
  lemma NoMjpgStreams(streams: seq<string>)
    requires forall u :: u in streams ==> !IsMjpg(u)
    ensures JavaHttpCamera.FixedUrls(streams) == Some([])
    ensures CppHttpCamera.FixedUrls(streams) == []
  {
    MjpgStreamsNone(streams);
  }

  /** The C++ rewrite works URL by URL: the output of a concatenation is the concatenation of the outputs. */
  lemma CppFixedUrlsAppend(a: seq<string>, b: seq<string>)
    ensures CppHttpCamera.FixedUrls(a + b) == CppHttpCamera.FixedUrls(a) + CppHttpCamera.FixedUrls(b)
  {
    MjpgStreamsAppend(a, b);
  }
}
