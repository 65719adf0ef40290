/** The palette editor of gifcolormap: splicing requested colours into the
    global colormap of a GIF image, from the last slot backwards, skipping
    colours the map already holds.

    The reference description of the pass is `Placed`: the requests that get
    written, in request order. After the colours `w` have been written, the
    map is `Current(m, w)`: the first written colour sits in slot N-1, the
    second in slot N-2, and so on with no gaps, and every slot below N-|w|
    holds its original colour. A request is skipped exactly when it
    already occurs in that current map. `SplicePass` is the source's loop,
    with its own index arithmetic, proved to produce that map. */
module Palette {

  /** An 8-bit unsigned channel value (`uint8_t`). */
  type Byte = x: int | 0 <= x < 256

  /** One RGB colormap entry. Datatype equality is equality in all three channels. */
  datatype Color = Color(r: Byte, g: Byte, b: Byte)

  /** The colormap `m` after the colours `w` have been written by the pass:
      `w[q]` in slot N-1-q, every slot below N-|w| as it was. */
  function Current(m: seq<Color>, w: seq<Color>): (cur: seq<Color>)
    requires |w| <= |m|
    ensures |cur| == |m|
  {
    seq(|m|, s requires 0 <= s < |m| => if s < |m| - |w| then m[s] else w[|m| - 1 - s])
  }

  lemma PrefixMembers(m: seq<Color>, t: nat, c: Color)
    requires t <= |m|
    ensures c in m[..t] ==> c in m
  {
    if c in m[..t] {
      var p :| 0 <= p < t && m[..t][p] == c;
      assert m[p] == c;
    }
  }

  /** A colour is in the current map exactly when it is in the untouched
      low part or among the colours written. */
  lemma CurrentMembers(m: seq<Color>, w: seq<Color>, c: Color)
    requires |w| <= |m|
    ensures c in Current(m, w) <==> c in m[..|m| - |w|] || c in w
  {
    var cur := Current(m, w);
    if c in cur {
      var s :| 0 <= s < |m| && cur[s] == c;
      if s < |m| - |w| {
        assert m[..|m| - |w|][s] == c;
      } else {
        assert w[|m| - 1 - s] == c;
      }
    }
    if c in m[..|m| - |w|] {
      var s :| 0 <= s < |m| - |w| && m[..|m| - |w|][s] == c;
      assert cur[s] == c;
    }
    if c in w {
      var q :| 0 <= q < |w| && w[q] == c;
      assert cur[|m| - 1 - q] == c;
    }
  }

  /** Whether a request for `c` is skipped once the colours `w` have been
      written: the scan covers the whole current map, new entries included. */
  predicate IsDuplicate(m: seq<Color>, w: seq<Color>, c: Color)
  {
    |w| <= |m| && c in Current(m, w)
  }

  /** The requests the pass writes into `m`, in request order. */
  function Placed(m: seq<Color>, requests: seq<Color>): seq<Color>
  {
    if requests == [] then []
    else
      var w := Placed(m, requests[..|requests| - 1]);
      var c := requests[|requests| - 1];
      if IsDuplicate(m, w, c) then w else w + [c]
  }

  /** The requests the pass skips as duplicates, in request order; `dupcount`
      is their number. */
  function Skipped(m: seq<Color>, requests: seq<Color>): seq<Color>
  {
    if requests == [] then []
    else
      var w := Placed(m, requests[..|requests| - 1]);
      var c := requests[|requests| - 1];
      var s := Skipped(m, requests[..|requests| - 1]);
      if IsDuplicate(m, w, c) then s + [c] else s
  }

  /** The colormap the pass leaves behind, when every write stays inside it. */
  function Spliced(m: seq<Color>, requests: seq<Color>): seq<Color>
    requires |Placed(m, requests)| <= |m|
  {
    Current(m, Placed(m, requests))
  }

  /** Every request is either written or skipped, never both and never lost:
      `dupcount + W == K`, and the two lists together are the requests. */
  lemma {:induction false} PlacedSkippedSplit(m: seq<Color>, requests: seq<Color>)
    ensures |Placed(m, requests)| + |Skipped(m, requests)| == |requests|
    ensures multiset(Placed(m, requests)) + multiset(Skipped(m, requests)) == multiset(requests)
  {
    if requests != [] {
      var init := requests[..|requests| - 1];
      PlacedSkippedSplit(m, init);
      assert requests == init + [requests[|requests| - 1]];
    }
  }

  /** What the pass has written after the first j requests is a prefix of
      what it writes in the end: written slots are never given back. */
  lemma {:induction false} PlacedGrows(m: seq<Color>, requests: seq<Color>, j: nat)
    requires j <= |requests|
    ensures Placed(m, requests[..j]) <= Placed(m, requests)
  {
    if j < |requests| {
      var init := requests[..|requests| - 1];
      assert init[..j] == requests[..j];
      PlacedGrows(m, init, j);
    } else {
      assert requests[..j] == requests;
    }
  }

  /** The write pointer: request j is paired with base slot i = N-1-j, and
      `i + dupcount` is the slot just below those already written, so the
      next colour lands in slot N-1-W_j and the written region has no gaps. */
  lemma TargetSlotIsNextFree(m: seq<Color>, requests: seq<Color>, j: nat)
    requires j <= |requests|
    ensures 0 <= |Skipped(m, requests[..j])| <= j
    ensures (|m| - 1 - j) + |Skipped(m, requests[..j])| == |m| - 1 - |Placed(m, requests[..j])|
  {
    PlacedSkippedSplit(m, requests[..j]);
  }

  /** Writing the next colour into slot N-1-|w| of the current map extends
      the written region by one slot at its low end. */
  lemma CurrentWrite(m: seq<Color>, w: seq<Color>, c: Color)
    requires |w| < |m|
    ensures Current(m, w + [c]) == Current(m, w)[|m| - 1 - |w| := c]
  {
    var after := Current(m, w + [c]);
    var updated := Current(m, w)[|m| - 1 - |w| := c];
    forall s | 0 <= s < |m|
      ensures after[s] == updated[s]
    {
    }
  }

  /** A request is written only when it is missing from the current map. */
  lemma {:induction false} PlacedStep(m: seq<Color>, requests: seq<Color>, j: nat)
    requires j < |requests|
    ensures var w := Placed(m, requests[..j]);
            Placed(m, requests[..j + 1]) == if IsDuplicate(m, w, requests[j]) then w else w + [requests[j]]
    ensures var w := Placed(m, requests[..j]);
            Skipped(m, requests[..j + 1]) == if IsDuplicate(m, w, requests[j]) then Skipped(m, requests[..j]) + [requests[j]] else Skipped(m, requests[..j])
  {
    assert requests[..j + 1][..j] == requests[..j];
  }

  /** One iteration of the pass, on the abstract map, for a request found
      in the current map: the map stays as it is and one more skip is counted. */
  lemma PassSkipStep(m: seq<Color>, requests: seq<Color>, j: nat)
    requires j < |requests| && |Placed(m, requests)| <= |m|
    requires |Placed(m, requests[..j])| <= |m|
    requires requests[j] in Current(m, Placed(m, requests[..j]))
    ensures Placed(m, requests[..j + 1]) == Placed(m, requests[..j])
    ensures |Skipped(m, requests[..j + 1])| == |Skipped(m, requests[..j])| + 1
  {
    PlacedStep(m, requests, j);
  }

  /** One iteration of the pass, on the abstract map, for a request missing
      from the current map: it is written at base slot N-1-j plus the skips
      so far, which lies inside the map. */
  lemma PassWriteStep(m: seq<Color>, requests: seq<Color>, j: nat)
    requires j < |requests| && |Placed(m, requests)| <= |m|
    requires |Placed(m, requests[..j])| <= |m|
    requires requests[j] !in Current(m, Placed(m, requests[..j]))
    ensures 0 <= |m| - 1 - j + |Skipped(m, requests[..j])| < |m|
    ensures Placed(m, requests[..j + 1]) == Placed(m, requests[..j]) + [requests[j]]
    ensures |Placed(m, requests[..j + 1])| <= |m|
    ensures Current(m, Placed(m, requests[..j + 1])) ==
            Current(m, Placed(m, requests[..j]))[|m| - 1 - j + |Skipped(m, requests[..j])| := requests[j]]
    ensures Skipped(m, requests[..j + 1]) == Skipped(m, requests[..j])
  {
    var w := Placed(m, requests[..j]);
    var c := requests[j];
    PlacedStep(m, requests, j);
    assert !IsDuplicate(m, w, c);
    assert Placed(m, requests[..j + 1]) == w + [c];
    PlacedGrows(m, requests, j + 1);
    assert |w| < |m|;
    TargetSlotIsNextFree(m, requests, j);
    CurrentWrite(m, w, c);
  }

  /** With no more requests than slots, every write stays inside the map. */
  lemma FitsWhenFewRequests(m: seq<Color>, requests: seq<Color>)
    requires |requests| <= |m|
    ensures |Placed(m, requests)| <= |m|
  {
    PlacedSkippedSplit(m, requests);
  }

  /** The written colours are pairwise distinct: a colour written once is in
      the current map, so a later request for it is skipped. */
  lemma {:induction false} PlacedDistinct(m: seq<Color>, requests: seq<Color>)
    requires |Placed(m, requests)| <= |m|
    ensures var w := Placed(m, requests);
            forall p, q :: 0 <= p < q < |w| ==> w[p] != w[q]
  {
    if requests != [] {
      var init := requests[..|requests| - 1];
      var c := requests[|requests| - 1];
      var w := Placed(m, init);
      PlacedGrows(m, requests, |requests| - 1);
      assert init == requests[..|requests| - 1];
      PlacedDistinct(m, init);
      if !IsDuplicate(m, w, c) {
        CurrentMembers(m, w, c);
        assert c !in w;
      }
    }
  }

  /** A skipped request matched a colour that was in the map when it was
      examined: an original entry whose slot the pass has not yet reached,
      or a colour written by an earlier request. */
  lemma SkippedWerePresent(m: seq<Color>, requests: seq<Color>, j: nat)
    requires j < |requests|
    requires IsDuplicate(m, Placed(m, requests[..j]), requests[j])
    ensures var w := Placed(m, requests[..j]);
            requests[j] in m[..|m| - |w|] || requests[j] in w
  {
    CurrentMembers(m, Placed(m, requests[..j]), requests[j]);
  }

  /** When every requested colour is already in the map, the pass writes
      nothing, skips everything and leaves the map as it was. */
  lemma {:induction false} AllPresentLeavesMapUnchanged(m: seq<Color>, requests: seq<Color>)
    requires forall j :: 0 <= j < |requests| ==> requests[j] in m
    ensures Placed(m, requests) == []
    ensures Skipped(m, requests) == requests
    ensures Spliced(m, requests) == m
  {
    if requests != [] {
      var init := requests[..|requests| - 1];
      AllPresentLeavesMapUnchanged(m, init);
      assert m[..|m|] == m;
      CurrentMembers(m, [], requests[|requests| - 1]);
      assert requests == init + [requests[|requests| - 1]];
    }
    assert Current(m, []) == m;
  }

  /** Requests that are pairwise distinct and absent from the map are all
      written, whatever their number. */
  lemma {:induction false} FreshRequestsAllPlaced(m: seq<Color>, requests: seq<Color>)
    requires forall j :: 0 <= j < |requests| ==> requests[j] !in m
    requires forall p, q :: 0 <= p < q < |requests| ==> requests[p] != requests[q]
    ensures Placed(m, requests) == requests
    ensures Skipped(m, requests) == []
  {
    if requests != [] {
      var init := requests[..|requests| - 1];
      var c := requests[|requests| - 1];
      FreshRequestsAllPlaced(m, init);
      assert c !in init;
      if |init| <= |m| {
        CurrentMembers(m, init, c);
        PrefixMembers(m, |m| - |init|, c);
      }
      assert !IsDuplicate(m, init, c);
      assert requests == init + [c];
    }
  }

  /** Requests that are pairwise distinct and absent from the map, no more of
      them than slots: all are written, the first in slot N-1, slots
      [N-K, N-1] hold them in reverse request order and the slots below
      keep their colours. */
  lemma FreshRequestsFillTail(m: seq<Color>, requests: seq<Color>)
    requires |requests| <= |m|
    requires forall j :: 0 <= j < |requests| ==> requests[j] !in m
    requires forall p, q :: 0 <= p < q < |requests| ==> requests[p] != requests[q]
    ensures |Placed(m, requests)| <= |m| && |Skipped(m, requests)| == 0
    ensures forall s :: 0 <= s < |m| - |requests| ==> Spliced(m, requests)[s] == m[s]
    ensures forall q :: 0 <= q < |requests| ==> Spliced(m, requests)[|m| - 1 - q] == requests[q]
  {
    FreshRequestsAllPlaced(m, requests);
  }

  /** One colour of the map, one new colour requested: the single slot is
      replaced (K = N = 1). */
  lemma SingleSlotReplaced(a: Color, x: Color)
    requires a != x
    ensures |Placed([a], [x])| <= 1 && Spliced([a], [x]) == [x]
    ensures Skipped([a], [x]) == []
  {
    FreshRequestsAllPlaced([a], [x]);
    assert Current([a], [x])[0] == x;
  }

  /** The pass on two requests, unfolded. */
  lemma TwoRequests(m: seq<Color>, a: Color, b: Color)
    ensures Placed(m, [a]) == (if IsDuplicate(m, [], a) then [] else [a])
    ensures Skipped(m, [a]) == (if IsDuplicate(m, [], a) then [a] else [])
    ensures var w := Placed(m, [a]);
            Placed(m, [a, b]) == (if IsDuplicate(m, w, b) then w else w + [b]) &&
            Skipped(m, [a, b]) == (if IsDuplicate(m, w, b) then Skipped(m, [a]) + [b] else Skipped(m, [a]))
  {
    assert [a, b][..1] == [a];
    assert [a][..0] == [];
  }

  /** The worked trace: map [(0,0,0), (255,0,0), (0,255,0), (0,0,255)] with
      requests (255,0,0) then (10,10,10). The first is skipped (dupcount 1),
      the second is written at base slot 2 plus dupcount 1, that is slot 3. */
  lemma WorkedExample()
    ensures var m := [Color(0, 0, 0), Color(255, 0, 0), Color(0, 255, 0), Color(0, 0, 255)];
            var requests := [Color(255, 0, 0), Color(10, 10, 10)];
            |Placed(m, requests)| <= |m| &&
            Spliced(m, requests) == [Color(0, 0, 0), Color(255, 0, 0), Color(0, 255, 0), Color(10, 10, 10)] &&
            |Skipped(m, requests)| == 1
  {
    var red, grey := Color(255, 0, 0), Color(10, 10, 10);
    var m := [Color(0, 0, 0), red, Color(0, 255, 0), Color(0, 0, 255)];
    TwoRequests(m, red, grey);
    assert m[..4] == m;
    CurrentMembers(m, [], red);
    assert m[1] == red;
    assert IsDuplicate(m, [], red);
    CurrentMembers(m, [], grey);
    assert grey !in m;
    assert !IsDuplicate(m, [], grey);
    var after := Current(m, [grey]);
    assert after[0] == m[0] && after[1] == m[1] && after[2] == m[2] && after[3] == grey;
  }

  /** A request skipped as a duplicate is judged against the map at that
      moment only: a later write may overwrite the slot that matched it.
      Map [A, B, C] with requests C, X ends as [A, B, X]. */
  lemma SkippedColorCanBeOverwritten()
    ensures var m := [Color(1, 1, 1), Color(2, 2, 2), Color(3, 3, 3)];
            var requests := [Color(3, 3, 3), Color(9, 9, 9)];
            |Placed(m, requests)| <= |m| &&
            Color(3, 3, 3) in Skipped(m, requests) &&
            Spliced(m, requests) == [Color(1, 1, 1), Color(2, 2, 2), Color(9, 9, 9)] &&
            Color(3, 3, 3) !in Spliced(m, requests)
  {
    var c, x := Color(3, 3, 3), Color(9, 9, 9);
    var m := [Color(1, 1, 1), Color(2, 2, 2), c];
    TwoRequests(m, c, x);
    assert m[..3] == m;
    CurrentMembers(m, [], c);
    assert m[2] == c;
    assert IsDuplicate(m, [], c);
    CurrentMembers(m, [], x);
    assert x !in m;
    assert !IsDuplicate(m, [], x);
    var after := Current(m, [x]);
    assert after[0] == m[0] && after[1] == m[1] && after[2] == x;
    assert after == [Color(1, 1, 1), Color(2, 2, 2), x];
  }

  /** A colour already in the map, then a new one: the first is skipped and
      the second written. */
  lemma SkipThenWrite(m: seq<Color>, c: Color, x: Color)
    requires c in m && x !in m
    ensures Placed(m, [c, x]) == [x]
  {
    TwoRequests(m, c, x);
    assert m[..|m|] == m;
    CurrentMembers(m, [], c);
    CurrentMembers(m, [], x);
  }

  /** A colour skipped as a duplicate can still be written later in the
      same pass, once the slot that matched it has been overwritten: map
      [A, B, C] with requests C, X, C ends as [A, C, X]. */
  lemma SkippedColorWrittenLater()
    ensures var m := [Color(1, 1, 1), Color(2, 2, 2), Color(3, 3, 3)];
            var requests := [Color(3, 3, 3), Color(9, 9, 9), Color(3, 3, 3)];
            IsDuplicate(m, Placed(m, requests[..0]), requests[0]) &&
            |Placed(m, requests)| <= |m| &&
            Placed(m, requests) == [Color(9, 9, 9), Color(3, 3, 3)] &&
            Spliced(m, requests) == [Color(1, 1, 1), Color(3, 3, 3), Color(9, 9, 9)]
  {
    var a, b, c, x := Color(1, 1, 1), Color(2, 2, 2), Color(3, 3, 3), Color(9, 9, 9);
    var m := [a, b, c];
    var requests := [c, x, c];
    assert m[2] == c;
    SkipThenWrite(m, c, x);
    assert requests[..0] == [];
    assert m[..3] == m;
    CurrentMembers(m, [], c);
    assert requests[..2] == [c, x];
    PlacedStep(m, requests, 2);
    assert requests[..3] == requests;
    assert m[..2] == [a, b];
    CurrentMembers(m, [x], c);
    var after := Current(m, [x, c]);
    assert after[0] == a && after[1] == c && after[2] == x;
  }

  /** As written, nothing bounds the number of requests by the number of
      slots. Two-colour map, three new colours: once two colours are
      written, the third request is paired with base slot i = -1, dupcount
      is 0, and the write goes to slot -1. */
  lemma TooManyRequestsWriteBelowSlotZero()
    ensures var m := [Color(0, 0, 0), Color(255, 255, 255)];
            var requests := [Color(255, 0, 0), Color(0, 255, 0), Color(0, 0, 255)];
            !IsDuplicate(m, Placed(m, requests[..2]), requests[2]) &&
            (|m| - 1 - 2) + |Skipped(m, requests[..2])| == -1 &&
            |Placed(m, requests)| > |m|
  {
    var red, green, blue := Color(255, 0, 0), Color(0, 255, 0), Color(0, 0, 255);
    var m := [Color(0, 0, 0), Color(255, 255, 255)];
    var requests := [red, green, blue];
    FreshRequestsAllPlaced(m, requests);
    assert requests[..2] == [red, green];
    FreshRequestsAllPlaced(m, requests[..2]);
    assert m[..0] == [];
    CurrentMembers(m, [red, green], blue);
  }

  /** Request j of the pass as written finds the map full, is missing from
      it, and is paired with write index -1. */
  predicate WritesBelowSlotZero(m: seq<Color>, requests: seq<Color>, j: nat)
    requires j < |requests|
  {
    |Placed(m, requests[..j])| == |m| &&
    requests[j] !in Current(m, Placed(m, requests[..j])) &&
    (|m| - 1 - j) + |Skipped(m, requests[..j])| == -1
  }

  lemma WritesBelowSlotZeroInPrefix(m: seq<Color>, requests: seq<Color>, n: nat, j: nat)
    requires j < n <= |requests|
    requires WritesBelowSlotZero(m, requests[..n], j)
    ensures WritesBelowSlotZero(m, requests, j)
  {
    assert requests[..n][..j] == requests[..j];
    assert requests[..n][j] == requests[j];
  }

  /** The last request overflows when the others have filled the map and it
      is written all the same. */
  lemma LastRequestWritesBelowSlotZero(m: seq<Color>, requests: seq<Color>)
    requires requests != []
    requires |Placed(m, requests[..|requests| - 1])| <= |m| < |Placed(m, requests)|
    ensures WritesBelowSlotZero(m, requests, |requests| - 1)
  {
    var n := |requests|;
    PlacedStep(m, requests, n - 1);
    assert requests[..n] == requests;
    TargetSlotIsNextFree(m, requests, n - 1);
  }

  /** Whenever more than N colours would be written, the pass as written
      reaches a request that is missing from a full map and is paired with
      write index -1: the bound on `SplicePass` is exactly the condition
      under which every write stays inside the map. */
  lemma {:induction false} OverflowReachesSlotMinusOne(m: seq<Color>, requests: seq<Color>)
    requires |Placed(m, requests)| > |m|
    ensures exists j :: 0 <= j < |requests| && WritesBelowSlotZero(m, requests, j)
  {
    var n := |requests|;
    var init := requests[..n - 1];
    if |Placed(m, init)| > |m| {
      OverflowReachesSlotMinusOne(m, init);
      var j :| 0 <= j < |init| && WritesBelowSlotZero(m, init, j);
      WritesBelowSlotZeroInPrefix(m, requests, n - 1, j);
    } else {
      LastRequestWritesBelowSlotZero(m, requests);
    }
  }

  /** More requests than slots do not by themselves leave the map: map
      [A, B] with requests A, B, A skips all three and writes nothing. */
  lemma DuplicatesBeyondCapacityFit()
    ensures var m := [Color(1, 1, 1), Color(2, 2, 2)];
            var requests := [Color(1, 1, 1), Color(2, 2, 2), Color(1, 1, 1)];
            |requests| > |m| &&
            |Placed(m, requests)| <= |m| && Spliced(m, requests) == m &&
            |Skipped(m, requests)| == 3
  {
    var a, b := Color(1, 1, 1), Color(2, 2, 2);
    var m := [a, b];
    var requests := [a, b, a];
    assert forall j :: 0 <= j < |requests| ==> requests[j] in m;
    AllPresentLeavesMapUnchanged(m, requests);
  }

  /** The inner scan: whether `c` equals, channel by channel, some entry of
      the map as it currently stands. */
  method ColorExists(colors: array<Color>, c: Color) returns (existed: bool)
    ensures existed <==> c in colors[..]
  {
    existed := false;
    var k := 0;
    while k < colors.Length
      invariant 0 <= k <= colors.Length
      invariant c !in colors[..k]
    {
      if c.r == colors[k].r && c.g == colors[k].g && c.b == colors[k].b {
        existed := true;
        assert colors[..][k] == c;
        break;
      }
      k := k + 1;
    }
    assert !existed ==> colors[..k] == colors[..];
  }

  /** The splice loop as written: request j goes with base slot i = N-1-j;
      a request found in the current map bumps `dupcount`, any other is
      written at `i + dupcount`. Its behaviour is defined exactly when no
      write falls below slot 0, that is when at most N requests get written.
      The map ends as `Spliced` says and `dupcount` counts the skips. */
  method SplicePass(colors: array<Color>, requests: seq<Color>) returns (dupcount: nat)
    requires |Placed(colors[..], requests)| <= colors.Length
    modifies colors
    ensures colors[..] == Spliced(old(colors[..]), requests)
    ensures dupcount == |Skipped(old(colors[..]), requests)|
  {
    ghost var m := colors[..];
    var n := colors.Length;
    var k := |requests|;
    dupcount := 0;
    var i, j := n - 1, 0;
    ghost var w: seq<Color> := [];
    assert requests[..j] == [];
    while i >= n - k
      invariant 0 <= j <= k && i == n - 1 - j
      invariant w == Placed(m, requests[..j]) && |w| <= n
      invariant colors[..] == Current(m, w)
      invariant dupcount == |Skipped(m, requests[..j])|
      decreases k - j
    {
      var acolor := requests[j];
      var existed := ColorExists(colors, acolor);
      if existed {
        PassSkipStep(m, requests, j);
        dupcount := dupcount + 1;
      } else {
        PassWriteStep(m, requests, j);
        var target_i := i + dupcount;
        colors[target_i] := acolor;
        w := w + [acolor];
      }
      i, j := i - 1, j + 1;
    }
    assert requests[..j] == requests;
  }

  /** The pass behind a check that the colours it would write fit in the
      map, so that no write can leave it; on failure the map is untouched.
      Requests beyond the number of slots are accepted when enough of them
      are duplicates. */
  method AddColors(colors: array<Color>, requests: seq<Color>) returns (ok: bool, dupcount: nat)
    modifies colors
    ensures ok <==> |Placed(old(colors[..]), requests)| <= colors.Length
    ensures ok ==> |Placed(old(colors[..]), requests)| <= colors.Length &&
                   colors[..] == Spliced(old(colors[..]), requests) &&
                   dupcount == |Skipped(old(colors[..]), requests)|
    ensures !ok ==> colors[..] == old(colors[..]) && dupcount == 0
  {
    if |Placed(colors[..], requests)| > colors.Length {
      return false, 0;
    }
    dupcount := SplicePass(colors, requests);
    ok := true;
  }
}
