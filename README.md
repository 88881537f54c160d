# Vision sample: tape-strip selection and camera-stream discovery

This project models, in Dafny, the two pieces of sequential logic in the
robot vision sample programs (a Java version and a C++ version):

- **Tape-strip selection** (Java `Main.getTapeStrips`). One scan over the
  filtered contours fills two slots by percent error with respect to the
  expected width/height ratio. Element 0 is scanned twice, so it can fill both
  slots (see the next section). The result is an empty list or the list
  `[tapeStrip1, tapeStrip2]`. The percent error is abstract here: a total
  function `percentError: T -> real` over an abstract contour type `T`.
  Its `<=` comparisons give ties to the later-scanned contour.
- **Camera-stream discovery** (Java `Main.setHttpCamera`, C++ `SetHttpCamera`).
  The lookup runs after the wait for the robot. It looks the camera name up in
  the "CameraPublisher" registry, reads its "streams" array, keeps the URLs
  starting with `mjpg` and strips each one up to and including its first `:`.
  The registry is modelled as `map<string, Option<seq<string>>>`: a key is a
  published camera sub-table, and its value is the
  "streams" entry or `None` when that entry is missing.

Modules: `Wrappers` (Option), `TapeStrips`, `StreamUrls` (registry, `mjpg`
test, first colon), `JavaHttpCamera`, `CppHttpCamera`, and `HttpCameraVersions`
(how the two lookups relate).

## How the selector behaves, as written

`getTapeStrips` seeds `tapeStrip1` with element 0 and then scans the whole
list, element 0 included, so the scan sees the stream `c0, c0, c1, …, cn-1`
(`TapeStrips.Seeded`). The model reproduces this. `BestPair` is its
specification: the first slot is the last lowest-error element of that stream,
and the second slot is the last lowest-error element of the stream with the
first slot's position removed. `BestPairCharacterization` restates
this on the contours alone:

- if element 0 is the last lowest-error contour, both slots hold element 0;
- otherwise the first slot is the last lowest-error contour and the second
  slot is the last lowest-error contour among the others.

Under the real-valued error of this model the second slot is never null
(`GetTapeStrips` returns `Some` in both slots). A single contour fills both
slots (`SingleContour`). A contour 0 with strictly the lowest error fills both
slots too (`UniqueMinimumAtHead`), so errors 0, 0.25 and 0.5 select contour 0
twice. The pair depends on the order of the input (`OrderMatters`).

## How the two lookups differ

- A missing "streams" entry: Java reads it as `null` and returns `null`. C++
  reads it as an empty array and returns the empty camera.
- An empty "streams" array: Java returns a camera with no URLs. C++ returns
  the empty camera.
- An `mjpg` URL with no colon: in Java, `split(":", 2)` returns one part, and
  `[1]` throws `ArrayIndexOutOfBoundsException` (`JavaHttpCamera.Discovery.ArrayIndexOutOfBounds`).
  In C++, `split(":")` on the `StringRef` puts the empty string there.
- A non-empty array with no `mjpg` URL: both return a camera with no URLs.

## Model

| member | source | states |
|---|---|---|
| TapeStrips.LastMin | Java/src/main/java/Main.java:145-151 | the position returned holds an error no larger than any element's, and every later element's error is strictly larger (ties go to the later element, as `<=` does) |
| TapeStrips.SeededSlots | Java/src/main/java/Main.java:134-140 | on the stream `Seeded` (element 0 as seed, then every contour, element 0 included), the first slot is `contours[LastMin(contours)]` and the second is the lowest of `[contours[0]] + Without(contours, LastMin(contours))` |
| TapeStrips.BestPair | Java/src/main/java/Main.java:132-165 | the selection is empty for no contours and has exactly two entries otherwise |
| TapeStrips.ScanStep | Java/src/main/java/Main.java:145-157 | scanning one more contour: it takes the first slot when its error is <= the first slot's, which then moves to the second slot; otherwise it takes the second slot when its error is <= the second slot's; otherwise nothing changes |
| TapeStrips.GetTapeStrips | Java/src/main/java/Main.java:125-167 | the loop returns the empty list for no contours and otherwise the two entries of BestPair, neither of them null |
| TapeStrips.BestPairCharacterization | Java/src/main/java/Main.java:134-156 | both slots hold element 0 when it is the last lowest-error contour; otherwise the first slot holds the last lowest-error contour and the second the last lowest-error contour among the rest |
| TapeStrips.FirstSlotIsLastMinimum | Java/src/main/java/Main.java:145-151 | the first slot is an input contour whose error is <= every contour's, and every contour after it has a strictly larger error |
| TapeStrips.SlotsAreOrderedMembers | Java/src/main/java/Main.java:134-156 | both slots are input contours, the second slot's error is >= the first's, and it is <= that of every contour other than the first slot's |
| TapeStrips.SingleContour | Java/src/main/java/Main.java:134-150 | a one-contour input returns that contour in both slots |
| TapeStrips.UniqueMinimumAtHead | Java/src/main/java/Main.java:134-156 | when contour 0 has strictly the lowest error, both slots hold contour 0 |
| TapeStrips.AllTied | Java/src/main/java/Main.java:145-156 | with two or more contours of equal error, the slots hold the last and the last-but-one contour |
| TapeStrips.OrderMatters | Java/src/main/java/Main.java:134-161 | the same two contours in the two orders give different selections ([1, 1] and [1, 2]) |
| StreamUrls.MjpgStreams | Java/src/main/java/Main.java:200-201 | the kept URLs are exactly the inputs `u` with `IsMjpg(u)`, i.e. `startsWith("mjpg")` (also Cpp/src/main.cpp:125), and there are no more of them than inputs |
| StreamUrls.MjpgStreamsAppend | Cpp/src/main.cpp:123-128 | filtering distributes over concatenation, so kept URLs stay in input order |
| StreamUrls.MjpgStreamsNone | Cpp/src/main.cpp:123-128 | with no URL starting with "mjpg", nothing is kept |
| StreamUrls.FirstColon | Java/src/main/java/Main.java:202 | the position found holds a ':' with no ':' before it, and none is found exactly when the string has no ':' |
| JavaHttpCamera.SplitLimit2 | Java/src/main/java/Main.java:202 | `split(":", 2)` gives two parts, rejoined by ':', with a colon-free first part, when the string has a ':', and the whole string as the only part otherwise |
| JavaHttpCamera.FixedUrls | Java/src/main/java/Main.java:199-204 | the rewrite fails exactly when some "mjpg" URL has no ':'; otherwise it has one entry per kept URL, in order, each the text after that URL's first ':' |
| JavaHttpCamera.SetHttpCamera | Java/src/main/java/Main.java:190-207 | null for an unknown camera or a null "streams" entry; the out-of-bounds exception for a colon-free "mjpg" URL; otherwise a camera over the rewritten URLs, also for an empty array |
| CppHttpCamera.SplitAtColon | Cpp/src/main.cpp:126 | a string with a ':' is its colon-free first part, ':', and the rest; one without a ':' splits into itself and "" |
| CppHttpCamera.FixedUrls | Cpp/src/main.cpp:122-128 | one entry per kept URL, in order: the text after its first ':', or "" when it has none |
| CppHttpCamera.SetHttpCamera | Cpp/src/main.cpp:114-131 | the empty camera exactly when the name is unknown or its "streams" entry is missing (read as the default empty array) or empty; otherwise a camera over the rewritten URLs, even when none is kept |
| HttpCameraVersions.SplitsAgree | Cpp/src/main.cpp:126 | on a URL with a ':', Java's `split(":", 2)[1]` and C++'s `split(":").second` are equal |
| HttpCameraVersions.FixedUrlsAgree | Java/src/main/java/Main.java:199-204 | when the Java rewrite succeeds it equals the C++ one; when it fails, the C++ list holds "" for a colon-free "mjpg" URL |
| HttpCameraVersions.NoMjpgStreams | Cpp/src/main.cpp:119-130 | an array with no "mjpg" URL gives an empty URL list in both versions |
| HttpCameraVersions.CppFixedUrlsAppend | Cpp/src/main.cpp:123-128 | the C++ rewrite of a concatenation is the concatenation of the rewrites |

## Left out

- `getPercentError` and the ratio computation (Java Main.java:127, 137, 141, 169-171) are not modelled. The model uses an abstract, total, real-valued error.
- The width/height ratio at lines 137 and 141 is `int / int`: a zero-height contour throws `ArithmeticException`. The total `percentError` cannot express that error path, so it is not modelled.
- `expectedRatio = 2/5` is integer division, so it is 0.0. Line 170 then divides by 0.0: the error is NaN when the integer ratio is 0 and +Infinity when it is positive. NaN and infinity comparisons are not modelled.
- TapeStrips.GetTapeStrips: promises two non-null slots only under a real-valued error. If contour 0's error is NaN, the comparison at line 145 is false on the revisit of contour 0 and the guard at line 152 is false, so line 161 adds `null`. The model does not capture this null second slot.
- The initial `tapeStrip2PercentError = 255` is kept as a constant. It is never compared before it is overwritten.
- The "wait for robot" loops (Java 177-187, C++ 107-112) are not modelled: they are blocking polls against NetworkTables. The lookup model takes the registry as it is once they end.
- Constructing `HttpCamera` objects and `server.setSource` are not modelled. The model returns only the decision and the URL list.
- The frame loops, camera, sink, source and MJPEG server setup (Java 14-123, C++ 19-101) are I/O over cscore, OpenCV and NetworkTables, and are not modelled. The external `GripPipeline` class is out of scope too.
- `setUsbCamera` / `SetUsbCamera` are not modelled: they are thin library wrappers, and the C++ one has a Windows-only throw.
- A "streams" entry that exists but is not a string array is not modelled. The registry holds only string arrays or nothing.
