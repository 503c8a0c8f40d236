/**
 * The hero background particle field of assets/js/animations.js (class ParticleSystem).
 *
 * Positions and speeds are reals, the canvas size is a pair of naturals, and every
 * Math.random() draw is passed in as a real in [0, 1).  The square root of the
 * connection test is replaced by a comparison of squared distances (see LinkedIffNear).
 */
module Particles {

  /** Number of particles the system creates (animations.js:16). */
  const ParticleCount: nat := 50

  /** A connecting line is drawn when the distance is below this many pixels. */
  const LinkRange: real := 150.0

  /** One particle record; only x and y change after creation. */
  datatype Particle = Particle(x: real, y: real, size: real, speedX: real, speedY: real, opacity: real)

  /** The six Math.random() results used to create one particle, in source order. */
  datatype Draws = Draws(rx: real, ry: real, rSize: real, rSpeedX: real, rSpeedY: real, rOpacity: real)

  /** A connecting line drawn during a frame, between particle i and a later particle j. */
  datatype Link = Link(i: nat, j: nat)

  predicate Unit(r: real) { 0.0 <= r < 1.0 }

  predicate UnitDraws(d: Draws) {
    Unit(d.rx) && Unit(d.ry) && Unit(d.rSize) && Unit(d.rSpeedX) && Unit(d.rSpeedY) && Unit(d.rOpacity)
  }

  predicate InCanvas(p: Particle, width: nat, height: nat) {
    0.0 <= p.x <= width as real && 0.0 <= p.y <= height as real
  }

  predicate AllInCanvas(ps: seq<Particle>, width: nat, height: nat) {
    forall k :: 0 <= k < |ps| ==> InCanvas(ps[k], width, height)
  }

  /** Everything but the position is the same in p and q. */
  predicate SameTraits(p: Particle, q: Particle) {
    p.size == q.size && p.speedX == q.speedX && p.speedY == q.speedY && p.opacity == q.opacity
  }

  lemma MulMono(a: real, b: real, c: real)
    requires a <= b && 0.0 <= c
    ensures a * c <= b * c
  {}

  lemma MulPos(a: real, c: real)
    requires 0.0 < a && 0.0 < c
    ensures 0.0 < a * c
  {}

  /** A draw in [0, 1) scaled by an extent lands in [0, extent], and below it when extent > 0. */
  lemma ScaledUnit(r: real, e: nat, x: real)
    requires Unit(r) && x == r * e as real
    ensures 0.0 <= x <= e as real
    ensures e > 0 ==> x < e as real
  {
    var ext := e as real;
    MulMono(0.0, r, ext);
    MulMono(r, 1.0, ext);
    if e > 0 {
      MulPos(1.0 - r, ext);
      assert (1.0 - r) * ext == ext - x;
    }
  }

  /** A freshly created particle (animations.js:35-42). */
  function NewParticle(d: Draws, width: nat, height: nat): (p: Particle)
    requires UnitDraws(d)
    ensures 0.0 <= p.x <= width as real && (width > 0 ==> p.x < width as real)
    ensures 0.0 <= p.y <= height as real && (height > 0 ==> p.y < height as real)
    ensures 1.0 <= p.size < 3.0
    ensures -0.25 <= p.speedX < 0.25 && -0.25 <= p.speedY < 0.25
    ensures 0.2 <= p.opacity < 0.7
  {
    var x := d.rx * width as real;
    var y := d.ry * height as real;
    ScaledUnit(d.rx, width, x);
    ScaledUnit(d.ry, height, y);
    Particle(x, y, d.rSize * 2.0 + 1.0,
             (d.rSpeedX - 0.5) * 0.5, (d.rSpeedY - 0.5) * 0.5, d.rOpacity * 0.5 + 0.2)
  }

  /** The particles createParticles appends, one per draw. */
  function Spawn(ds: seq<Draws>, width: nat, height: nat): (ps: seq<Particle>)
    requires forall k :: 0 <= k < |ds| ==> UnitDraws(ds[k])
    ensures |ps| == |ds|
    ensures forall k :: 0 <= k < |ps| ==> ps[k] == NewParticle(ds[k], width, height)
  {
    seq(|ds|, k requires 0 <= k < |ds| => NewParticle(ds[k], width, height))
  }

  /**
   * The edge wrap of one axis (animations.js:55-58): two tests in sequence, first
   * "below 0 jumps to the far edge", then "beyond the far edge jumps to 0".
   */
  function Wrap(c: real, extent: nat): (r: real)
    ensures 0.0 <= r <= extent as real
    ensures c < 0.0 ==> r == extent as real
    ensures c > extent as real ==> r == 0.0
    ensures 0.0 <= c <= extent as real ==> r == c
  {
    var afterLow := if c < 0.0 then extent as real else c;
    if afterLow > extent as real then 0.0 else afterLow
  }

  /** One particle's update in a frame: step by its speed, then wrap both axes. */
  function Moved(p: Particle, width: nat, height: nat): (q: Particle)
    ensures InCanvas(q, width, height)
    ensures SameTraits(p, q)
    ensures q.x == Wrap(p.x + p.speedX, width) && q.y == Wrap(p.y + p.speedY, height)
  {
    p.(x := Wrap(p.x + p.speedX, width), y := Wrap(p.y + p.speedY, height))
  }

  /** The particle list at the end of a frame. */
  function Advanced(ps: seq<Particle>, width: nat, height: nat): (qs: seq<Particle>)
    ensures |qs| == |ps|
    ensures AllInCanvas(qs, width, height)
    ensures forall k :: 0 <= k < |qs| ==> SameTraits(ps[k], qs[k]) && qs[k] == Moved(ps[k], width, height)
  {
    seq(|ps|, k requires 0 <= k < |ps| => Moved(ps[k], width, height))
  }

  function SqDist(p: Particle, q: Particle): real {
    (p.x - q.x) * (p.x - q.x) + (p.y - q.y) * (p.y - q.y)
  }

  /** The connection test of animations.js:68-72, on squared distances. */
  predicate Linked(p: Particle, q: Particle) {
    SqDist(p, q) < LinkRange * LinkRange
  }

  /** For the true distance d (d >= 0, d * d the squared distance), the test is "d < 150". */
  lemma LinkedIffNear(p: Particle, q: Particle, d: real)
    requires 0.0 <= d && d * d == SqDist(p, q)
    ensures Linked(p, q) <==> d < LinkRange
  {
    if d >= 150.0 {
      assert d * d >= 150.0 * d;
      assert 150.0 * d >= 150.0 * 150.0;
    } else {
      assert d * d <= 150.0 * d;
      assert 150.0 * d < 150.0 * 150.0;
    }
  }

  /** The stroke alpha of a line at distance d (animations.js:74). */
  function Alpha(d: real): (a: real)
    requires 0.0 <= d
    ensures d < LinkRange ==> 0.0 < a <= 0.1
    ensures d == 0.0 ==> a == 0.1
    ensures d == LinkRange ==> a == 0.0
  {
    0.1 * (1.0 - d / LinkRange)
  }

  /** The alpha fades strictly as the distance grows. */
  lemma AlphaDecreasing(d1: real, d2: real)
    requires 0.0 <= d1 < d2
    ensures Alpha(d2) < Alpha(d1)
  {
    assert d1 / LinkRange < d2 / LinkRange;
  }

  /**
   * Lines found during particle i's turn: mover is particle i after its move and
   * later is the slice of the particles after it (animations.js:67), not yet moved.
   */
  function RowLinks(mover: Particle, i: nat, later: seq<Particle>): seq<Link>
  {
    if later == [] then []
    else RowLinks(mover, i, later[..|later| - 1])
         + (if Linked(mover, later[|later| - 1]) then [Link(i, i + |later|)] else [])
  }

  /** Lines found during the turns of particles 0 .. i-1, where ps is the list as the frame began. */
  function LinksBefore(ps: seq<Particle>, width: nat, height: nat, i: nat): seq<Link>
    requires i <= |ps|
  {
    if i == 0 then []
    else LinksBefore(ps, width, height, i - 1) + RowLinks(Moved(ps[i - 1], width, height), i - 1, ps[i..])
  }

  /** All lines drawn in one frame that starts from the list ps. */
  function FrameLinks(ps: seq<Particle>, width: nat, height: nat): seq<Link> {
    LinksBefore(ps, width, height, |ps|)
  }

  predicate LinkBefore(a: Link, b: Link) {
    a.i < b.i || (a.i == b.i && a.j < b.j)
  }

  predicate StrictlyOrdered(ls: seq<Link>) {
    forall a, b :: 0 <= a < b < |ls| ==> LinkBefore(ls[a], ls[b])
  }

  lemma {:induction false} RowLinksShape(mover: Particle, i: nat, later: seq<Particle>)
    ensures StrictlyOrdered(RowLinks(mover, i, later))
    ensures forall l :: l in RowLinks(mover, i, later) <==>
      (l.i == i && i < l.j <= i + |later| && Linked(mover, later[l.j - i - 1]))
  {
    if later != [] {
      var front := later[..|later| - 1];
      RowLinksShape(mover, i, front);
      assert forall k :: 0 <= k < |front| ==> front[k] == later[k];
    }
  }

  /** Two ordered runs of lines, every line of the first before every line of the second. */
  lemma ConcatOrdered(front: seq<Link>, back: seq<Link>)
    requires StrictlyOrdered(front) && StrictlyOrdered(back)
    requires forall l, m :: l in front && m in back ==> LinkBefore(l, m)
    ensures StrictlyOrdered(front + back)
  {
    var all := front + back;
    forall a, b | 0 <= a < b < |all| ensures LinkBefore(all[a], all[b]) {
      if a < |front| && b >= |front| {
        assert all[a] == front[a] && all[a] in front;
        assert all[b] == back[b - |front|] && all[b] in back;
      } else if a >= |front| {
        assert all[a] == back[a - |front|] && all[b] == back[b - |front|];
      }
    }
  }

  lemma {:induction false} LinksBeforeShape(ps: seq<Particle>, width: nat, height: nat, i: nat)
    requires i <= |ps|
    ensures StrictlyOrdered(LinksBefore(ps, width, height, i))
    ensures forall l :: l in LinksBefore(ps, width, height, i) <==>
      (l.i < i && l.i < l.j < |ps| && Linked(Moved(ps[l.i], width, height), ps[l.j]))
  {
    if i > 0 {
      var later := ps[i..];
      var mover := Moved(ps[i - 1], width, height);
      var front := LinksBefore(ps, width, height, i - 1);
      var row := RowLinks(mover, i - 1, later);
      LinksBeforeShape(ps, width, height, i - 1);
      RowLinksShape(mover, i - 1, later);
      assert LinksBefore(ps, width, height, i) == front + row;
      forall l: Link | l.i == i - 1 && i - 1 < l.j < |ps|
        ensures l in row <==> Linked(Moved(ps[l.i], width, height), ps[l.j])
      {
        assert later[l.j - i] == ps[l.j];
      }
      ConcatOrdered(front, row);
    }
  }

  /**
   * Each unordered pair {i, j}, i < j, is examined exactly once per frame, during i's
   * turn, with i's moved and j's not yet moved position: a line for it appears in the
   * frame's output iff that test succeeds, and no line appears twice.
   */
  lemma FrameLinksExact(ps: seq<Particle>, width: nat, height: nat)
    ensures StrictlyOrdered(FrameLinks(ps, width, height))
    ensures forall a, b :: 0 <= a < b < |FrameLinks(ps, width, height)| ==>
      FrameLinks(ps, width, height)[a] != FrameLinks(ps, width, height)[b]
    ensures forall i, j :: 0 <= i < j < |ps| ==>
      (Link(i, j) in FrameLinks(ps, width, height) <==> Linked(Moved(ps[i], width, height), ps[j]))
    ensures forall l :: l in FrameLinks(ps, width, height) ==> l.i < l.j < |ps|
  {
    LinksBeforeShape(ps, width, height, |ps|);
  }

  /**
   * Every line drawn in a frame has an alpha in (0, 0.1], whatever the true
   * distance d between its two endpoints.
   */
  lemma FrameAlphaRange(ps: seq<Particle>, width: nat, height: nat, l: Link, d: real)
    requires l in FrameLinks(ps, width, height)
    requires 0.0 <= d
    requires l.i < |ps| && l.j < |ps| && d * d == SqDist(Moved(ps[l.i], width, height), ps[l.j])
    ensures 0.0 < Alpha(d) <= 0.1
  {
    LinksBeforeShape(ps, width, height, |ps|);
    LinkedIffNear(Moved(ps[l.i], width, height), ps[l.j], d);
  }

  class ParticleSystem {
    var width: nat
    var height: nat
    var particles: seq<Particle>

    ghost predicate Valid()
      reads this
    {
      |particles| == ParticleCount
    }

    /**
     * new ParticleSystem(canvas): init() measures the canvas, creates the particles and
     * renders the first frame synchronously (animations.js:12-26).
     */
    constructor (offsetWidth: nat, offsetHeight: nat, draws: seq<Draws>)
      requires |draws| == ParticleCount
      requires forall k :: 0 <= k < |draws| ==> UnitDraws(draws[k])
      ensures Valid()
      ensures width == offsetWidth && height == offsetHeight
      ensures particles == Advanced(Spawn(draws, offsetWidth, offsetHeight), offsetWidth, offsetHeight)
      ensures AllInCanvas(particles, width, height)
    {
      particles := [];
      new;
      Resize(offsetWidth, offsetHeight);
      CreateParticles(draws);
      var _ := Animate();
    }

    /** resize(): only the canvas size changes; the particles stay where they are. */
    method Resize(offsetWidth: nat, offsetHeight: nat)
      modifies this
      ensures width == offsetWidth && height == offsetHeight
      ensures particles == old(particles)
      ensures Valid() == old(Valid())
    {
      width := offsetWidth;
      height := offsetHeight;
    }

    /** createParticles(): appends one particle per draw, each inside the current canvas. */
    method CreateParticles(draws: seq<Draws>)
      requires |draws| == ParticleCount
      requires forall k :: 0 <= k < |draws| ==> UnitDraws(draws[k])
      modifies this
      ensures width == old(width) && height == old(height)
      ensures particles == old(particles) + Spawn(draws, width, height)
    {
      var i := 0;
      while i < ParticleCount
        invariant 0 <= i <= ParticleCount
        invariant width == old(width) && height == old(height)
        invariant particles == old(particles) + Spawn(draws[..i], width, height)
      {
        var d := draws[i];
        var p := Particle(d.rx * width as real, d.ry * height as real, d.rSize * 2.0 + 1.0,
                          (d.rSpeedX - 0.5) * 0.5, (d.rSpeedY - 0.5) * 0.5, d.rOpacity * 0.5 + 0.2);
        assert p == NewParticle(d, width, height);
        assert draws[..i + 1] == draws[..i] + [d];
        particles := particles + [p];
        i := i + 1;
      }
      assert draws[..ParticleCount] == draws;
    }

    /**
     * The connection pass of particle i (animations.js:67-80): particle i against every
     * later particle in list order. Reads the particles, changes nothing.
     */
    method ConnectionsOf(i: nat) returns (row: seq<Link>)
      requires i < |particles|
      ensures row == RowLinks(particles[i], i, particles[i + 1..])
    {
      var particle := particles[i];
      var later := particles[i + 1..];
      row := [];
      var k := 0;
      while k < |later|
        invariant 0 <= k <= |later|
        invariant row == RowLinks(particle, i, later[..k])
      {
        var other := later[k];
        assert later[..k + 1][..k] == later[..k];
        if SqDist(particle, other) < LinkRange * LinkRange {
          row := row + [Link(i, i + 1 + k)];
        }
        k := k + 1;
      }
      assert later[..k] == later;
    }

    /**
     * One frame of animate() (animations.js:46-84), without the drawing calls: every
     * particle in turn is moved and wrapped, then tested against every later particle.
     * Returns the lines drawn, in drawing order.
     */
    method Animate() returns (links: seq<Link>)
      requires Valid()
      modifies this
      ensures Valid()
      ensures width == old(width) && height == old(height)
      ensures particles == Advanced(old(particles), width, height)
      ensures links == FrameLinks(old(particles), width, height)
    {
      ghost var start := particles;
      var n := |particles|;
      links := [];
      var i := 0;
      while i < n
        invariant 0 <= i <= n && |particles| == n
        invariant width == old(width) && height == old(height)
        invariant forall k :: 0 <= k < i ==> particles[k] == Moved(start[k], width, height)
        invariant forall k :: i <= k < n ==> particles[k] == start[k]
        invariant links == LinksBefore(start, width, height, i)
      {
        var p := particles[i];
        var x := p.x + p.speedX;
        var y := p.y + p.speedY;
        if x < 0.0 { x := width as real; }
        if x > width as real { x := 0.0; }
        if y < 0.0 { y := height as real; }
        if y > height as real { y := 0.0; }
        assert x == Wrap(p.x + p.speedX, width) && y == Wrap(p.y + p.speedY, height);
        particles := particles[i := p.(x := x, y := y)];
        assert particles[i + 1..] == start[i + 1..];
        var row := ConnectionsOf(i);
        links := links + row;
        assert links == LinksBefore(start, width, height, i + 1);
        i := i + 1;
      }
    }
  }
}
