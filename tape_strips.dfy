/**
 * The tape-strip selector of the Java vision program (Main.getTapeStrips).
 *
 * The selector fills two slots by percent error with respect to the
 * expected width/height ratio, from the stream described below; element 0
 * can fill both slots. The error of
 * a contour is abstract here: a total function `percentError` into the reals.
 *
 * The source seeds the best slot with element 0 and then scans the WHOLE
 * list, element 0 included, so the scan sees the stream
 * `contours[0], contours[0], contours[1], ..., contours[n-1]`
 * (`Seeded` below). Both slots are selected from that stream.
 */
module TapeStrips {
  import opened Wrappers

  /** `i` is the position of the last lowest-error element of `s`. */
  ghost predicate IsLastMin<T>(s: seq<T>, percentError: T -> real, i: int) {
    && 0 <= i < |s|
    && (forall j :: 0 <= j < |s| ==> percentError(s[i]) <= percentError(s[j]))
    && (forall j :: i < j < |s| ==> percentError(s[i]) < percentError(s[j]))
  }

  lemma LastMinUnique<T>(s: seq<T>, percentError: T -> real, i: int, j: int)
    requires IsLastMin(s, percentError, i) && IsLastMin(s, percentError, j)
    ensures i == j
  {
    assert percentError(s[i]) <= percentError(s[j]) && percentError(s[j]) <= percentError(s[i]);
  }

  /** Position of the last lowest-error element: ties go to the later element. */
  function LastMin<T>(s: seq<T>, percentError: T -> real): (i: nat)
    requires |s| > 0
    ensures IsLastMin(s, percentError, i)
    decreases |s|
  {
    if |s| == 1 then 0
    else
      var j := LastMin(s[..|s| - 1], percentError);
      if percentError(s[|s| - 1]) <= percentError(s[j]) then |s| - 1 else j
  }

  /** `s` with position `i` removed. */
  function Without<T>(s: seq<T>, i: nat): (r: seq<T>)
    requires i < |s|
    ensures |r| == |s| - 1
    ensures forall j :: 0 <= j < i ==> r[j] == s[j]
    ensures forall j :: i <= j < |r| ==> r[j] == s[j + 1]
  {
    s[..i] + s[i + 1..]
  }

  /** The element the scan of `s` keeps in the best slot. */
  function Lowest<T>(s: seq<T>, percentError: T -> real): T
    requires |s| > 0
  {
    s[LastMin(s, percentError)]
  }

  /** The element the scan of `s` keeps in the second slot. */
  function RunnerUp<T>(s: seq<T>, percentError: T -> real): T
    requires |s| >= 2
  {
    Lowest(Without(s, LastMin(s, percentError)), percentError)
  }

  /** The stream the source's loop sees: element 0 seeds the best slot and is then scanned again. */
  function Seeded<T>(contours: seq<T>): seq<T>
    requires |contours| > 0
  {
    [contours[0]] + contours
  }

  /** The list getTapeStrips returns, as a function of its input. */
  function BestPair<T>(contours: seq<T>, percentError: T -> real): (r: seq<T>)
    ensures |r| == if |contours| == 0 then 0 else 2
  {
    if |contours| == 0 then []
    else [Lowest(Seeded(contours), percentError), RunnerUp(Seeded(contours), percentError)]
  }

  /** Appending one element to a scanned stream: how both slots move. */
  lemma ScanStep<T>(s: seq<T>, x: T, percentError: T -> real)
    requires |s| > 0
    ensures Lowest(s + [x], percentError)
         == if percentError(x) <= percentError(Lowest(s, percentError)) then x else Lowest(s, percentError)
    ensures percentError(x) <= percentError(Lowest(s, percentError)) ==>
              RunnerUp(s + [x], percentError) == Lowest(s, percentError)
    ensures percentError(x) > percentError(Lowest(s, percentError)) && |s| >= 2 ==>
              RunnerUp(s + [x], percentError)
                == if percentError(x) <= percentError(RunnerUp(s, percentError)) then x
                   else RunnerUp(s, percentError)
  {
    var t := s + [x];
    assert t[..|t| - 1] == s;
    var i := LastMin(s, percentError);
    if percentError(x) <= percentError(s[i]) {
      assert Without(t, |s|) == s;
    } else if |s| >= 2 {
      var w := Without(s, i);
      assert Without(t, i) == w + [x];
      assert (w + [x])[..|w|] == w;
    }
  }

  /** Repeating the head of `w` in front of it moves the last minimum one place right. */
  lemma LastMinOfRepeatedHead<T>(w: seq<T>, percentError: T -> real)
    requires |w| > 0
    ensures LastMin([w[0]] + w, percentError) == LastMin(w, percentError) + 1
    ensures Lowest([w[0]] + w, percentError) == Lowest(w, percentError)
  {
    var t := [w[0]] + w;
    var m := LastMin(w, percentError);
    assert t[0] == w[0];
    assert forall j :: 0 < j < |t| ==> t[j] == w[j - 1];
    assert IsLastMin(t, percentError, m + 1);
    LastMinUnique(t, percentError, m + 1, LastMin(t, percentError));
  }

  /** Removing a position after the seed leaves the seed in front. */
  lemma WithoutAfterSeed<T>(x: T, c: seq<T>, i: nat)
    requires i < |c|
    ensures Without([x] + c, i + 1) == [x] + Without(c, i)
  {
    assert ([x] + c)[..i + 1] == [x] + c[..i];
    assert ([x] + c)[i + 2..] == c[i + 1..];
  }

  /**
   * What the selector returns, stated on the contours alone: when element 0
   * is the last lowest-error contour, both slots hold it; otherwise the first
   * slot holds the last lowest-error contour and the second slot the last
   * lowest-error contour among the others.
   */
  lemma BestPairCharacterization<T>(contours: seq<T>, percentError: T -> real)
    requires |contours| > 0
    ensures var i := LastMin(contours, percentError);
            BestPair(contours, percentError)
              == if i == 0 then [contours[0], contours[0]]
                 else [contours[i], Lowest(Without(contours, i), percentError)]
  {
    var i := LastMin(contours, percentError);
    SeededSlots(contours, percentError);
    RestAfterSeed(contours, percentError);
  }

  /** With the winner removed, putting the seed back in front changes nothing when the winner is the seed itself. */
  lemma RestAfterSeed<T>(contours: seq<T>, percentError: T -> real)
    requires |contours| > 0
    ensures var i := LastMin(contours, percentError);
            Lowest([contours[0]] + Without(contours, i), percentError)
              == if i == 0 then contours[0] else Lowest(Without(contours, i), percentError)
  {
    var i := LastMin(contours, percentError);
    if i == 0 {
      assert [contours[0]] + Without(contours, 0) == contours;
    } else {
      RestAfterSeedLater(contours, i, percentError);
    }
  }

  /** When the winner is not the seed, the seed in front is a copy of the first remaining contour and changes nothing. */
  lemma RestAfterSeedLater<T>(contours: seq<T>, i: nat, percentError: T -> real)
    requires 0 < i < |contours|
    ensures Lowest([contours[0]] + Without(contours, i), percentError) == Lowest(Without(contours, i), percentError)
  {
    var w := Without(contours, i);
    assert w[0] == contours[0];
    LastMinOfRepeatedHead(w, percentError);
  }

  /** Scanning element 0 twice: both slots of the seeded stream, stated on the contours. */
  lemma SeededSlots<T>(contours: seq<T>, percentError: T -> real)
    requires |contours| > 0
    ensures Lowest(Seeded(contours), percentError) == contours[LastMin(contours, percentError)]
    ensures RunnerUp(Seeded(contours), percentError)
         == Lowest([contours[0]] + Without(contours, LastMin(contours, percentError)), percentError)
  {
    var s := Seeded(contours);
    var i := LastMin(contours, percentError);
    LastMinOfRepeatedHead(contours, percentError);
    WithoutAfterSeed(contours[0], contours, i);
  }

  /**
   * The first slot has an error no larger than any contour's, and on ties it
   * is the later-scanned contour: every contour after it has a strictly larger error.
   */
  lemma FirstSlotIsLastMinimum<T>(contours: seq<T>, percentError: T -> real)
    requires |contours| > 0
    ensures var first := BestPair(contours, percentError)[0];
            exists i :: 0 <= i < |contours| && first == contours[i]
              && (forall j :: 0 <= j < |contours| ==> percentError(first) <= percentError(contours[j]))
              && (forall j :: i < j < |contours| ==> percentError(first) < percentError(contours[j]))
  {
    BestPairCharacterization(contours, percentError);
    var i := LastMin(contours, percentError);
    assert BestPair(contours, percentError)[0] == contours[i];
  }

  /**
   * Both slots hold contours of the input; the second slot's error is no
   * smaller than the first's and no larger than that of any contour other
   * than the one in the first slot.
   */
  lemma SlotsAreOrderedMembers<T>(contours: seq<T>, percentError: T -> real)
    requires |contours| > 0
    ensures var r := BestPair(contours, percentError);
            && r[0] in contours && r[1] in contours
            && percentError(r[0]) <= percentError(r[1])
            && forall j :: 0 <= j < |contours| && j != LastMin(contours, percentError) ==>
                 percentError(r[1]) <= percentError(contours[j])
  {
    BestPairCharacterization(contours, percentError);
    var i := LastMin(contours, percentError);
    if i != 0 {
      var w := Without(contours, i);
      var m := LastMin(w, percentError);
      WithoutIsBelow(contours, i, w[m], percentError);
    }
  }

  /** An element no larger than every other element of `s` minus position `i`. */
  lemma WithoutIsBelow<T>(s: seq<T>, i: nat, x: T, percentError: T -> real)
    requires i < |s| && |s| >= 2
    requires x == Lowest(Without(s, i), percentError)
    ensures x in s
    ensures forall j :: 0 <= j < |s| && j != i ==> percentError(x) <= percentError(s[j])
  {
    var w := Without(s, i);
    var m := LastMin(w, percentError);
    if m < i { assert w[m] == s[m]; } else { assert w[m] == s[m + 1]; }
    forall j | 0 <= j < |s| && j != i
      ensures percentError(x) <= percentError(s[j])
    {
      if j < i { assert s[j] == w[j]; } else { assert s[j] == w[j - 1]; }
    }
  }

  /** A single contour fills both slots: it is seeded, scanned again and moved to the second slot. */
  lemma SingleContour<T>(x: T, percentError: T -> real)
    ensures BestPair([x], percentError) == [x, x]
  {
    BestPairCharacterization([x], percentError);
  }

  /** A contour 0 with strictly the lowest error fills both slots. */
  lemma UniqueMinimumAtHead<T>(contours: seq<T>, percentError: T -> real)
    requires |contours| > 0
    requires forall j :: 0 < j < |contours| ==> percentError(contours[0]) < percentError(contours[j])
    ensures BestPair(contours, percentError) == [contours[0], contours[0]]
  {
    assert IsLastMin(contours, percentError, 0);
    LastMinUnique(contours, percentError, 0, LastMin(contours, percentError));
    BestPairCharacterization(contours, percentError);
  }

  /** With two or more contours of equal error, the slots hold the last and the last-but-one. */
  lemma AllTied<T>(contours: seq<T>, percentError: T -> real)
    requires |contours| >= 2
    requires forall j :: 0 <= j < |contours| ==> percentError(contours[j]) == percentError(contours[0])
    ensures BestPair(contours, percentError) == [contours[|contours| - 1], contours[|contours| - 2]]
  {
    var n := |contours|;
    assert IsLastMin(contours, percentError, n - 1);
    LastMinUnique(contours, percentError, n - 1, LastMin(contours, percentError));
    var w := Without(contours, n - 1);
    assert IsLastMin(w, percentError, n - 2);
    LastMinUnique(w, percentError, n - 2, LastMin(w, percentError));
    BestPairCharacterization(contours, percentError);
  }

  /**
   * The selection depends on the order of the contours: with errors equal to
   * the values, [1, 2] yields [1, 1] while [2, 1] yields [1, 2].
   */
  lemma OrderMatters()
    ensures BestPair([1, 2], (x: int) => x as real) == [1, 1]
    ensures BestPair([2, 1], (x: int) => x as real) == [1, 2]
  {
    var e := (x: int) => x as real;
    UniqueMinimumAtHead([1, 2], e);
    var s := [2, 1];
    assert IsLastMin(s, e, 1);
    LastMinUnique(s, e, 1, LastMin(s, e));
    BestPairCharacterization(s, e);
    assert Without(s, 1) == [2];
  }

  /**
   * getTapeStrips: an empty list for no contours, otherwise the list
   * [tapeStrip1, tapeStrip2], both non-null, equal to BestPair.
   */
  method GetTapeStrips<T>(contours: seq<T>, percentError: T -> real) returns (returnList: seq<Option<T>>)
    ensures |returnList| == |BestPair(contours, percentError)|
    ensures forall k :: 0 <= k < |returnList| ==> returnList[k] == Some(BestPair(contours, percentError)[k])
  {
    returnList := [];
    if |contours| > 0 {
      var tapeStrip1 := contours[0];
      var tapeStrip2: Option<T> := None;
      var tapeStrip1PercentError := percentError(tapeStrip1);
      var tapeStrip2PercentError: real := 255.0;
      ghost var stream := Seeded(contours);
      for k := 0 to |contours|
        invariant tapeStrip1 == Lowest(stream[..k + 1], percentError)
        invariant tapeStrip1PercentError == percentError(tapeStrip1)
        invariant k == 0 ==> tapeStrip2 == None
        invariant k > 0 ==> tapeStrip2 == Some(RunnerUp(stream[..k + 1], percentError))
        invariant k > 0 ==> tapeStrip2PercentError == percentError(tapeStrip2.value)
      {
        var cont := contours[k];
        assert stream[..k + 2] == stream[..k + 1] + [cont];
        ScanStep(stream[..k + 1], cont, percentError);
        var error := percentError(cont);
        if error <= tapeStrip1PercentError {
          tapeStrip2 := Some(tapeStrip1);
          tapeStrip2PercentError := tapeStrip1PercentError;
          tapeStrip1 := cont;
          tapeStrip1PercentError := error;
        } else if tapeStrip2.Some? {
          if error <= tapeStrip2PercentError {
            tapeStrip2 := Some(cont);
            tapeStrip2PercentError := error;
          }
        }
      }
      assert stream[..|contours| + 1] == stream;
      returnList := returnList + [Some(tapeStrip1)];
      returnList := returnList + [tapeStrip2];
    }
  }
}
