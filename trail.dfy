/**
 * The trail of fading cells the snake's tail leaves behind (main.js lines
 * 80-95): a particle is left on every cell the tail vacates, each particle
 * lives for a few ticks, and only the most recent ones are kept.
 */
module Trail {
  import opened Board

  /** Longest trail kept (main.js line 86). */
  const MaxTrail: nat := 30
  /** Lifetime of a new trail particle, in ticks (main.js line 85). */
  const TrailLife: int := 3

  datatype Particle = Particle(x: int, y: int, life: int)

  /** What every trail the shell builds satisfies. */
  predicate TrailValid(t: seq<Particle>) {
    |t| <= MaxTrail && forall i :: 0 <= i < |t| ==> 1 <= t[i].life <= TrailLife
  }

  /** `t.slice(t.length - k)` when the trail is longer than k: the last k entries, in order. */
  function KeepLast(t: seq<Particle>, k: nat): (r: seq<Particle>)
    ensures |r| == if |t| > k then k else |t|
    ensures r == t[|t| - |r|..]
  {
    if |t| > k then t[|t| - k..] else t
  }

  /**
   * The trail after `pushTrailFromMove`: when the cell the tail left is no
   * longer part of the snake, a fresh particle for it is appended and the
   * trail is cut back to its last MaxTrail entries; otherwise nothing changes.
   */
  function TrailAfterMove(t: seq<Particle>, prevTail: Pos, nextSnake: seq<Pos>): (r: seq<Particle>)
    ensures prevTail in nextSnake ==> r == t
    ensures prevTail !in nextSnake ==>
      && 1 <= |r| <= MaxTrail && |r| <= |t| + 1
      && |r| == (if |t| + 1 > MaxTrail then MaxTrail else |t| + 1)
      && r[|r| - 1] == Particle(prevTail.x, prevTail.y, TrailLife)
      && r[..|r| - 1] == t[|t| + 1 - |r|..]
    ensures TrailValid(t) ==> TrailValid(r)
  {
    var isTailStillOccupied := exists i :: 0 <= i < |nextSnake| && PositionsEqual(nextSnake[i], prevTail);
    if isTailStillOccupied then t
    else
      var pushed := t + [Particle(prevTail.x, prevTail.y, TrailLife)];
      var r := KeepLast(pushed, MaxTrail);
      assert r[..|r| - 1] == t[|t| + 1 - |r|..];
      r
  }

  /** `particles.map(p => ({...p, life: p.life - 1}))`. */
  function Aged(t: seq<Particle>): (r: seq<Particle>)
    ensures |r| == |t|
    ensures forall i :: 0 <= i < |t| ==> r[i] == t[i].(life := t[i].life - 1)
  {
    seq(|t|, i requires 0 <= i < |t| => t[i].(life := t[i].life - 1))
  }

  /**
   * `particles.filter(p => p.life > 0)`: exactly the particles still alive,
   * in their original order, never more than before.
   */
  function Alive(t: seq<Particle>): (r: seq<Particle>)
    ensures |r| <= |t|
    ensures forall q :: q in r <==> q in t && q.life > 0
    ensures forall i :: 0 <= i < |r| ==> r[i].life > 0
  {
    if t == [] then []
    else if t[0].life > 0 then [t[0]] + Alive(t[1..])
    else Alive(t[1..])
  }

  /** Filtering distributes over concatenation, so survivors keep their relative order. */
  lemma {:induction false} AliveAppend(a: seq<Particle>, b: seq<Particle>)
    ensures Alive(a + b) == Alive(a) + Alive(b)
  {
    if a != [] {
      assert (a + b)[0] == a[0];
      assert (a + b)[1..] == a[1..] + b;
      AliveAppend(a[1..], b);
    } else {
      assert a + b == b;
    }
  }

  /**
   * The trail after `decayTrail`: every particle loses one tick of life and
   * those with none left are dropped. A valid trail stays valid.
   */
  function Decayed(t: seq<Particle>): (r: seq<Particle>)
    ensures |r| <= |t|
    ensures forall i :: 0 <= i < |r| ==> r[i].life > 0
    ensures TrailValid(t) ==> TrailValid(r)
    ensures forall q :: q in r <==> exists i :: 0 <= i < |t| && t[i].life > 1 && q == t[i].(life := t[i].life - 1)
  {
    var aged := Aged(t);
    var r := Alive(aged);
    assert forall i :: 0 <= i < |r| ==> r[i] in aged;
    forall q ensures q in r <==> exists i :: 0 <= i < |t| && t[i].life > 1 && q == t[i].(life := t[i].life - 1) {
      if q in r {
        var i :| 0 <= i < |aged| && aged[i] == q;
        assert t[i].life > 1 && q == t[i].(life := t[i].life - 1);
      }
      if exists i :: 0 <= i < |t| && t[i].life > 1 && q == t[i].(life := t[i].life - 1) {
        var i :| 0 <= i < |t| && t[i].life > 1 && q == t[i].(life := t[i].life - 1);
        assert aged[i] == q;
      }
    }
    r
  }

  /** Decay works particle by particle, so the survivors keep their relative order. */
  lemma DecayedAppend(a: seq<Particle>, b: seq<Particle>)
    ensures Decayed(a + b) == Decayed(a) + Decayed(b)
  {
    assert Aged(a + b) == Aged(a) + Aged(b);
    AliveAppend(Aged(a), Aged(b));
  }
}
