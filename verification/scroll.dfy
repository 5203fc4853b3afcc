/** The pillar loop of one playing tick: every pillar moves left, a pillar
    that has left the screen costs the list its front element and earns a
    point, and a pillar in the bird's column whose gap misses the bird ends
    the game.

    The loop ranges over the list as it was when the loop began, while the
    list itself is shortened from the front as it goes. Both views share one
    backing array of pillars: the loop walks the whole array, and the current
    list is the array from `front` on. */
module Scroll {
  import opened GameState

  function Move(p: Pillar): Pillar {
    p.(x := p.x - PillarSpeed)
  }

  /** Scrolled fully past the left edge. */
  predicate OffScreen(p: Pillar) {
    p.x < -PillarWidth
  }

  /** Horizontally overlapping the bird's fixed column. */
  predicate InColumn(p: Pillar) {
    p.x < BirdSize && p.x > -PillarWidth
  }

  /** The bird is above the top of the gap or below its bottom. */
  predicate OutsideGap(p: Pillar, birdY: real) {
    birdY < p.y as real || birdY > (p.y + PillarGap) as real
  }

  /** A collision: the pillar overlaps the bird's column and the bird is
      not within the closed gap band [y, y + PillarGap]. */
  predicate Collides(p: Pillar, birdY: real)
    ensures Collides(p, birdY) <==>
              -PillarWidth < p.x < BirdSize && !(p.y as real <= birdY <= (p.y + PillarGap) as real)
    ensures Collides(p, birdY) ==> !OffScreen(p)
  {
    OutsideGap(p, birdY) && InColumn(p)
  }

  /** Strictly increasing left edges: the order spawning produces. */
  predicate Ascending(ps: seq<Pillar>) {
    forall i, j :: 0 <= i < j < |ps| ==> ps[i].x < ps[j].x
  }

  function MoveAll(ps: seq<Pillar>): (ms: seq<Pillar>)
    ensures |ms| == |ps|
  {
    seq(|ps|, i requires 0 <= i < |ps| => Move(ps[i]))
  }

  /** How many of `ms` are off screen. */
  function DropCount(ms: seq<Pillar>): (n: nat)
    ensures n <= |ms|
    ensures n == 0 <== forall i :: 0 <= i < |ms| ==> !OffScreen(ms[i])
  {
    if |ms| == 0 then 0
    else (if OffScreen(ms[0]) then 1 else 0) + DropCount(ms[1..])
  }

  predicate AnyCollides(ms: seq<Pillar>, birdY: real) {
    exists i :: 0 <= i < |ms| && Collides(ms[i], birdY)
  }

  /** The loop's state: the shared pillar array, where the current list
      starts in it, the score, and the game-over flag. */
  datatype Scan = Scan(arr: seq<Pillar>, front: nat, score: int, over: bool)

  /** The loop from iteration `k` on, exactly as written: move pillar `k`,
      drop the list's front (panicking if the list is empty) and score when
      that pillar is off screen, then test it for a collision. */
  function ScanFrom(k: nat, s: Scan, birdY: real): (r: Outcome<Scan>)
    requires k <= |s.arr| && s.front <= |s.arr|
    ensures r.Ok? ==> |r.value.arr| == |s.arr| && s.front <= r.value.front <= |r.value.arr|
    ensures r.Ok? ==> r.value.score - s.score == r.value.front - s.front
    ensures r.Ok? && s.over ==> r.value.over
    decreases |s.arr| - k
  {
    if k == |s.arr| then Ok(s)
    else
      var p := Move(s.arr[k]);
      var arr := s.arr[k := p];
      if OffScreen(p) then
        if s.front == |s.arr| then Panicked
        else ScanFrom(k + 1, Scan(arr, s.front + 1, s.score + 1, s.over || Collides(p, birdY)), birdY)
      else ScanFrom(k + 1, Scan(arr, s.front, s.score, s.over || Collides(p, birdY)), birdY)
  }

  /** The whole loop over `ps`, starting from the given score and flag. */
  function ScrollPillars(ps: seq<Pillar>, score: int, over: bool, birdY: real): Outcome<Scan> {
    ScanFrom(0, Scan(ps, 0, score, over), birdY)
  }

  /** From iteration `k` on, as long as the list has lost no more elements
      than iterations have run, the loop never drops from an empty list; it
      moves every remaining pillar left by exactly PillarSpeed, drops and
      scores once per pillar that ends off screen, and sets the flag exactly
      when one of the moved pillars collides. */
  lemma {:induction false} ScanFaithful(k: nat, s: Scan, birdY: real)
    requires s.front <= k <= |s.arr|
    ensures ScanFrom(k, s, birdY).Ok?
    ensures var rest := MoveAll(s.arr[k..]);
            var d := DropCount(rest);
            ScanFrom(k, s, birdY).value
              == Scan(s.arr[..k] + rest, s.front + d, s.score + d, s.over || AnyCollides(rest, birdY))
    decreases |s.arr| - k
  {
    var rest := MoveAll(s.arr[k..]);
    if k == |s.arr| {
      assert s.arr[..k] + rest == s.arr;
      assert !AnyCollides(rest, birdY);
    } else {
      var p := Move(s.arr[k]);
      var arr := s.arr[k := p];
      var rest' := MoveAll(arr[k + 1..]);
      MoveAllUncons(s.arr, arr, k);
      var c := s.over || Collides(p, birdY);
      var s' := if OffScreen(p) then Scan(arr, s.front + 1, s.score + 1, c)
                else Scan(arr, s.front, s.score, c);
      assert ScanFrom(k, s, birdY) == ScanFrom(k + 1, s', birdY);
      ScanFaithful(k + 1, s', birdY);
      assert DropCount(rest) == (if OffScreen(p) then 1 else 0) + DropCount(rest');
      AnyCollidesUncons(rest, birdY);
    }
  }

  /** One loop iteration in terms of the moved remainder: the remainder
      from `k` is pillar `k` moved, followed by the remainder from `k + 1`
      of the array with pillar `k` moved in place. */
  lemma MoveAllUncons(a: seq<Pillar>, arr: seq<Pillar>, k: nat)
    requires k < |a| && arr == a[k := Move(a[k])]
    ensures |MoveAll(a[k..])| > 0
    ensures MoveAll(a[k..])[0] == Move(a[k])
    ensures MoveAll(a[k..])[1..] == MoveAll(arr[k + 1..])
    ensures arr[..k + 1] + MoveAll(arr[k + 1..]) == a[..k] + MoveAll(a[k..])
  {
    assert arr[k + 1..] == a[k + 1..];
  }

  lemma AnyCollidesUncons(ms: seq<Pillar>, birdY: real)
    requires |ms| > 0
    ensures AnyCollides(ms, birdY) <==> Collides(ms[0], birdY) || AnyCollides(ms[1..], birdY)
  {
    if AnyCollides(ms, birdY) && !Collides(ms[0], birdY) {
      var i :| 0 <= i < |ms| && Collides(ms[i], birdY);
      assert ms[1..][i - 1] == ms[i];
    }
    if AnyCollides(ms[1..], birdY) {
      var i :| 0 <= i < |ms[1..]| && Collides(ms[1..][i], birdY);
      assert ms[i + 1] == ms[1..][i];
    }
  }

  /** The loop over a whole list never panics, and leaves every pillar of
      the list moved left by PillarSpeed, the current list shortened by the
      number of pillars now off screen, the score raised by that number, and
      the flag set exactly when it was already set or some moved pillar
      collides. */
  lemma ScrollMeaning(ps: seq<Pillar>, score: int, over: bool, birdY: real)
    ensures ScrollPillars(ps, score, over, birdY).Ok?
    ensures var ms := MoveAll(ps);
            var d := DropCount(ms);
            ScrollPillars(ps, score, over, birdY).value == Scan(ms, d, score + d, over || AnyCollides(ms, birdY))
  {
    ScanFaithful(0, Scan(ps, 0, score, over), birdY);
    assert ps[..0] + MoveAll(ps[0..]) == MoveAll(ps);
  }

  /** The pillar that triggers a drop is off screen and so can never be the
      one that ends the game in the same iteration. */
  lemma OffScreenNeverCollides(p: Pillar, birdY: real)
    requires OffScreen(p)
    ensures !Collides(p, birdY)
  {
  }

  /** Whatever the order, a last pillar that is still on screen is never
      counted, so the front drop cannot reach it. */
  lemma {:induction false} LastNotDropped(ms: seq<Pillar>)
    requires |ms| > 0 && !OffScreen(ms[|ms| - 1])
    ensures DropCount(ms) < |ms|
  {
    if |ms| > 1 {
      assert ms[1..][|ms| - 2] == ms[|ms| - 1];
      LastNotDropped(ms[1..]);
    }
  }

  /** Moving keeps the spawn order. */
  lemma MoveAllAscending(ps: seq<Pillar>)
    requires Ascending(ps)
    ensures Ascending(MoveAll(ps))
  {
  }

  /** In spawn order the off-screen pillars are exactly a prefix, so
      dropping DropCount elements from the front removes precisely the
      pillars that left the screen and keeps every other one. */
  lemma {:induction false} AscendingDropIsExact(ms: seq<Pillar>)
    requires Ascending(ms)
    ensures forall i :: 0 <= i < DropCount(ms) ==> OffScreen(ms[i])
    ensures forall i :: DropCount(ms) <= i < |ms| ==> !OffScreen(ms[i])
  {
    if |ms| > 0 {
      var tail := ms[1..];
      assert Ascending(tail) by {
        forall i, j | 0 <= i < j < |tail| ensures tail[i].x < tail[j].x {
          assert tail[i] == ms[i + 1] && tail[j] == ms[j + 1];
        }
      }
      AscendingDropIsExact(tail);
      if OffScreen(ms[0]) {
        forall i | 0 <= i < DropCount(ms) ensures OffScreen(ms[i]) {
          if i > 0 { assert ms[i] == tail[i - 1]; }
        }
        forall i | DropCount(ms) <= i < |ms| ensures !OffScreen(ms[i]) {
          assert ms[i] == tail[i - 1];
        }
      } else {
        forall i | 0 <= i < |tail| ensures !OffScreen(tail[i]) {
          assert tail[i] == ms[i + 1];
        }
        assert DropCount(tail) == 0;
      }
    }
  }
}
