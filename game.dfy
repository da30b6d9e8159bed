/** The game state machine of sketch.js: the globals `bx, by, vy, cols,
    framesSinceSpawn, score, started, gameOver` (sketch.js:29-33), the input
    handlers `flap` and `resetGame` (sketch.js:133-147), the per-frame update
    block of `draw` (sketch.js:68-109) and the query `guideRouteY`
    (sketch.js:173-178).

    `World` is the value of the globals and `Frame` is what one call of `draw`
    does to them; class `Game` keeps the globals as fields, and its `Tick`
    runs the source's loops and is proved to compute `Frame`. */
module Game {
  import opened Tuning
  import opened Geometry
  import opened Obstacle

  /** The game's globals. The bird's radius `br` is the constant BR. */
  datatype World = World(birdX: real, birdY: real, vy: real, cols: seq<TeethCol>,
                         framesSinceSpawn: int, score: int, started: bool, gameOver: bool)

  // ------------------------------------------------------- one column, one frame

  /** The body of the reverse loop for one column, before the splice
      (sketch.js:91-93): scroll it, then credit it once its right edge is left
      of the bird. */
  function StepColumn(c: TeethCol, birdX: real): (d: TeethCol)
    ensures d.x == c.x - SCROLL
    ensures d.scored <==> c.scored || d.x + COL_W < birdX
    ensures d.gapHLocal == c.gapHLocal && d.gapY == c.gapY
    ensures d.topTeeth == c.topTeeth && d.botTeeth == c.botTeeth
  {
    var u := Update(c);
    if !u.scored && u.x + COL_W < birdX then u.(scored := true) else u
  }

  /** The column adds one to the score in this frame: it was not scored and its
      scrolled right edge is left of the bird. */
  predicate Passes(c: TeethCol, birdX: real)
  {
    !c.scored && c.x - SCROLL + COL_W < birdX
  }

  /** Every column stepped, in place. */
  function Stepped(cs: seq<TeethCol>, birdX: real): seq<TeethCol>
  {
    seq(|cs|, i requires 0 <= i < |cs| => StepColumn(cs[i], birdX))
  }

  /** The columns that are not offscreen, in their order. */
  function Survivors(cs: seq<TeethCol>): seq<TeethCol>
  {
    if cs == [] then []
    else (if Offscreen(cs[0]) then [] else [cs[0]]) + Survivors(cs[1..])
  }

  /** The score added by a frame over the columns `cs`. */
  function Gain(cs: seq<TeethCol>, birdX: real): nat
  {
    if cs == [] then 0
    else (if Passes(cs[0], birdX) then 1 else 0) + Gain(cs[1..], birdX)
  }

  /** Number of scored columns. */
  function CountScored(cs: seq<TeethCol>): nat
  {
    if cs == [] then 0
    else (if cs[0].scored then 1 else 0) + CountScored(cs[1..])
  }

  /** Positions of the columns of `cs` that are not offscreen, in increasing
      order, counting the first column as position `base`. */
  function Kept(cs: seq<TeethCol>, base: int): seq<int>
  {
    if cs == [] then []
    else (if Offscreen(cs[0]) then [] else [base]) + Kept(cs[1..], base + 1)
  }

  // ------------------------------------------------------------ collisions

  /** The bird leaves the playfield: it touches the ground or the top edge (sketch.js:98). */
  predicate OutOfBounds(birdY: real)
  {
    birdY + BR > H - GROUND_H || birdY - BR < 0.0
  }

  /** The bird hits column `c`, as the collision loop tests it (sketch.js:101). */
  predicate ColumnHit(c: TeethCol, birdX: real, birdY: real)
  {
    OverlapsX(c, birdX, BR) && CollidesWithCircle(c, birdX, birdY, BR)
  }

  /** The collision loop (sketch.js:100-104): true at the first column hit. */
  function AnyColumnHit(cs: seq<TeethCol>, birdX: real, birdY: real): (hit: bool)
    ensures hit <==> exists k :: 0 <= k < |cs| && ColumnHit(cs[k], birdX, birdY)
  {
    if cs == [] then false
    else if ColumnHit(cs[0], birdX, birdY) then true
    else
      var rest := AnyColumnHit(cs[1..], birdX, birdY);
      assert forall k :: 1 <= k < |cs| ==> cs[k] == cs[1..][k - 1];
      rest
  }

  // --------------------------------------------------------------- a frame

  /** The frame runs the update block: the game has started and is not over. */
  predicate Running(w: World)
  {
    w.started && !w.gameOver
  }

  /** The columns a running frame works on: those on screen, and the column
      spawned when the counter reaches SPAWN (sketch.js:83-87). */
  function PreColumns(w: World, u1: real, u2: real): seq<TeethCol>
    requires 0.0 <= u1 < 1.0 && 0.0 <= u2 < 1.0
  {
    if w.framesSinceSpawn + 1 >= SPAWN then w.cols + [MakeColumn(u1, u2)] else w.cols
  }

  /** What one call of `draw` does to the globals (sketch.js:68-109), for the
      draws u1, u2 a spawned column would use. */
  function Frame(w: World, u1: real, u2: real): World
    requires 0.0 <= u1 < 1.0 && 0.0 <= u2 < 1.0
  {
    if !Running(w) then w
    else
      var vy := w.vy + GRAVITY;
      var birdY := w.birdY + vy;
      var frames := w.framesSinceSpawn + 1;
      var pre := PreColumns(w, u1, u2);
      var cols := Survivors(Stepped(pre, w.birdX));
      World(w.birdX, birdY, vy, cols, if frames >= SPAWN then 0 else frames,
            w.score + Gain(pre, w.birdX), w.started, OutOfBounds(birdY) || AnyColumnHit(cols, w.birdX, birdY))
  }

  /** `Frame` on a running state, given its new field values one by one. */
  lemma FrameOfRunning(w: World, u1: real, u2: real, birdX: real, birdY: real, vy: real,
                       cols: seq<TeethCol>, frames: int, score: int, over: bool)
    requires 0.0 <= u1 < 1.0 && 0.0 <= u2 < 1.0
    requires Running(w) && birdX == w.birdX
    requires vy == w.vy + GRAVITY && birdY == w.birdY + vy
    requires frames == if w.framesSinceSpawn + 1 >= SPAWN then 0 else w.framesSinceSpawn + 1
    requires cols == Survivors(Stepped(PreColumns(w, u1, u2), birdX))
    requires score == w.score + Gain(PreColumns(w, u1, u2), birdX)
    requires over == (OutOfBounds(birdY) || AnyColumnHit(cols, birdX, birdY))
    ensures Frame(w, u1, u2) == World(birdX, birdY, vy, cols, frames, score, true, over)
  {
  }

  /** The globals after `resetGame(startFromR)` (sketch.js:139-147). */
  function Reset(startFromR: bool): World
  {
    World(BX_START, BY_START, 0.0, [], 0, 0, startFromR, false)
  }

  /** Columns in strictly increasing x: the order in which they were spawned is
      their order from left to right. */
  predicate SortedByX(cs: seq<TeethCol>)
  {
    forall i, j :: 0 <= i < j < |cs| ==> cs[i].x < cs[j].x
  }

  /** What every reachable state satisfies: the spawn counter below SPAWN, the
      bird at its fixed x, a game over only once started, every column as the
      constructor built it, moved at least once, in spawn order and scored
      exactly when it is left of the bird, and the score covering every scored
      column still on screen. */
  predicate Inv(w: World)
  {
    && 0 <= w.framesSinceSpawn < SPAWN
    && w.birdX == BX_START
    && (w.gameOver ==> w.started)
    && (forall i :: 0 <= i < |w.cols| ==> WellFormed(w.cols[i]))
    && (forall i :: 0 <= i < |w.cols| ==> w.cols[i].x <= W - SCROLL)
    && (forall i :: 0 <= i < |w.cols| ==> (w.cols[i].scored <==> w.cols[i].x + COL_W < w.birdX))
    && SortedByX(w.cols)
    && CountScored(w.cols) <= w.score
  }

  // ------------------------------------------------------ lemmas: sequences

  /** The survivors are exactly the columns that are not offscreen, in order:
      `Kept` lists their positions, increasing, and a position is kept exactly
      when its column is not offscreen. */
  lemma SurvivorsAreKept(cs: seq<TeethCol>)
    ensures |Survivors(cs)| == |Kept(cs, 0)|
    ensures forall k :: 0 <= k < |Kept(cs, 0)| ==> 0 <= Kept(cs, 0)[k] < |cs| && Survivors(cs)[k] == cs[Kept(cs, 0)[k]]
    ensures forall k, l :: 0 <= k < l < |Kept(cs, 0)| ==> Kept(cs, 0)[k] < Kept(cs, 0)[l]
    ensures forall j :: 0 <= j < |cs| ==> (j in Kept(cs, 0) <==> !Offscreen(cs[j]))
  {
    KeptPositions(cs, 0);
    KeptIncreasing(cs, 0);
    KeptMember(cs, 0);
  }

  lemma KeptPositions(cs: seq<TeethCol>, base: int)
    ensures |Survivors(cs)| == |Kept(cs, base)|
    ensures forall k :: 0 <= k < |Kept(cs, base)| ==>
      base <= Kept(cs, base)[k] < base + |cs| && Survivors(cs)[k] == cs[Kept(cs, base)[k] - base]
  {
    KeptLength(cs, base);
    forall k | 0 <= k < |Kept(cs, base)|
      ensures base <= Kept(cs, base)[k] < base + |cs| && Survivors(cs)[k] == cs[Kept(cs, base)[k] - base]
    {
      KeptAt(cs, base, k);
    }
  }

  lemma {:induction false} KeptLength(cs: seq<TeethCol>, base: int)
    ensures |Survivors(cs)| == |Kept(cs, base)|
  {
    if cs != [] {
      KeptLength(cs[1..], base + 1);
    }
  }

  lemma {:induction false} KeptAt(cs: seq<TeethCol>, base: int, k: int)
    requires 0 <= k < |Kept(cs, base)|
    ensures base <= Kept(cs, base)[k] < base + |cs|
    ensures k < |Survivors(cs)| && Survivors(cs)[k] == cs[Kept(cs, base)[k] - base]
    decreases |cs|
  {
    KeptLength(cs, base);
    var tail := cs[1..];
    var kt, st := Kept(tail, base + 1), Survivors(tail);
    if Offscreen(cs[0]) {
      assert Kept(cs, base) == kt && Survivors(cs) == st;
      KeptAt(tail, base + 1, k);
      assert tail[kt[k] - (base + 1)] == cs[kt[k] - base];
    } else {
      assert Kept(cs, base) == [base] + kt && Survivors(cs) == [cs[0]] + st;
      if k > 0 {
        KeptAt(tail, base + 1, k - 1);
        assert Kept(cs, base)[k] == kt[k - 1] && Survivors(cs)[k] == st[k - 1];
        assert tail[kt[k - 1] - (base + 1)] == cs[kt[k - 1] - base];
      }
    }
  }

  lemma KeptIncreasing(cs: seq<TeethCol>, base: int)
    ensures forall k, l :: 0 <= k < l < |Kept(cs, base)| ==> Kept(cs, base)[k] < Kept(cs, base)[l]
  {
    forall k, l | 0 <= k < l < |Kept(cs, base)|
      ensures Kept(cs, base)[k] < Kept(cs, base)[l]
    {
      KeptIncreasingAt(cs, base, k, l);
    }
  }

  lemma {:induction false} KeptIncreasingAt(cs: seq<TeethCol>, base: int, k: int, l: int)
    requires 0 <= k < l < |Kept(cs, base)|
    ensures Kept(cs, base)[k] < Kept(cs, base)[l]
    decreases |cs|
  {
    var tail := cs[1..];
    var kt := Kept(tail, base + 1);
    if Offscreen(cs[0]) {
      assert Kept(cs, base) == kt;
      KeptIncreasingAt(tail, base + 1, k, l);
    } else {
      assert Kept(cs, base) == [base] + kt;
      if k > 0 {
        KeptIncreasingAt(tail, base + 1, k - 1, l - 1);
      } else {
        KeptAt(tail, base + 1, l - 1);
      }
    }
  }

  lemma KeptMember(cs: seq<TeethCol>, base: int)
    ensures forall j :: 0 <= j < |cs| ==> (base + j in Kept(cs, base) <==> !Offscreen(cs[j]))
  {
    forall j | 0 <= j < |cs|
      ensures base + j in Kept(cs, base) <==> !Offscreen(cs[j])
    {
      KeptMemberAt(cs, base, j);
    }
  }

  lemma {:induction false} KeptMemberAt(cs: seq<TeethCol>, base: int, j: int)
    requires 0 <= j < |cs|
    ensures base + j in Kept(cs, base) <==> !Offscreen(cs[j])
    decreases j
  {
    var tail := cs[1..];
    var kt := Kept(tail, base + 1);
    var head := if Offscreen(cs[0]) then [] else [base];
    assert Kept(cs, base) == head + kt;
    if j == 0 {
      KeptPositions(tail, base + 1);
      assert base !in kt;
    } else {
      KeptMemberAt(tail, base + 1, j - 1);
      assert base + j !in head;
      assert cs[j] == tail[j - 1];
    }
  }

  /** A survivor is a column of the input that is not offscreen. */
  lemma {:induction false} SurvivorsMember(cs: seq<TeethCol>, c: TeethCol)
    ensures c in Survivors(cs) <==> c in cs && !Offscreen(c)
  {
    if cs != [] {
      SurvivorsMember(cs[1..], c);
      assert cs == [cs[0]] + cs[1..];
    }
  }

  /** Removing columns keeps the others in order. */
  lemma {:induction false} SurvivorsSorted(cs: seq<TeethCol>)
    requires SortedByX(cs)
    ensures SortedByX(Survivors(cs))
  {
    if cs != [] {
      var tail := cs[1..];
      assert SortedByX(tail) by {
        forall i, j | 0 <= i < j < |tail| ensures tail[i].x < tail[j].x {
          assert tail[i] == cs[i + 1] && tail[j] == cs[j + 1];
        }
      }
      SurvivorsSorted(tail);
      var st := Survivors(tail);
      forall k | 0 <= k < |st| ensures cs[0].x < st[k].x {
        SurvivorsMember(tail, st[k]);
        var m :| 0 <= m < |tail| && tail[m] == st[k];
        assert tail[m] == cs[m + 1];
      }
    }
  }

  lemma {:induction false} CountScoredAppend(a: seq<TeethCol>, b: seq<TeethCol>)
    ensures CountScored(a + b) == CountScored(a) + CountScored(b)
  {
    if a != [] {
      assert (a + b)[1..] == a[1..] + b;
      CountScoredAppend(a[1..], b);
    } else {
      assert a + b == b;
    }
  }

  lemma {:induction false} GainAppend(a: seq<TeethCol>, b: seq<TeethCol>, birdX: real)
    ensures Gain(a + b, birdX) == Gain(a, birdX) + Gain(b, birdX)
  {
    if a != [] {
      assert (a + b)[1..] == a[1..] + b;
      GainAppend(a[1..], b, birdX);
    } else {
      assert a + b == b;
    }
  }

  /** The score a frame adds is exactly the number of columns whose `scored`
      flag it turns from false to true. */
  lemma {:induction false} GainIsNewlyScored(cs: seq<TeethCol>, birdX: real)
    ensures CountScored(Stepped(cs, birdX)) == CountScored(cs) + Gain(cs, birdX)
  {
    if cs != [] {
      var tail := cs[1..];
      GainIsNewlyScored(tail, birdX);
      assert Stepped(cs, birdX)[1..] == Stepped(tail, birdX);
    }
  }

  /** A column that leaves has been scored, so leaving moves it from the scored
      columns on screen to the columns already passed. */
  lemma {:induction false} SurvivorsAccounting(cs: seq<TeethCol>)
    requires forall i :: 0 <= i < |cs| && Offscreen(cs[i]) ==> cs[i].scored
    ensures CountScored(cs) == CountScored(Survivors(cs)) + (|cs| - |Survivors(cs)|)
    ensures |Survivors(cs)| <= |cs|
  {
    if cs != [] {
      var tail := cs[1..];
      assert forall i :: 0 <= i < |tail| ==> tail[i] == cs[i + 1];
      SurvivorsAccounting(tail);
      if Offscreen(cs[0]) {
        assert Survivors(cs) == Survivors(tail);
      } else {
        assert Survivors(cs) == [cs[0]] + Survivors(tail);
        assert Survivors(cs)[1..] == Survivors(tail);
      }
    }
  }

  /** One step of the reverse loop at position i: the columns after i are
      already done; stepping column i and splicing it out or writing it back
      extends the done part to start at i. */
  lemma ReverseStep(pre: seq<TeethCol>, birdX: real, i: int, cols: seq<TeethCol>)
    requires 0 <= i < |pre|
    requires cols == pre[..i + 1] + Survivors(Stepped(pre, birdX)[i + 1..])
    ensures var s := Stepped(pre, birdX);
      && i < |cols| && cols[i] == pre[i] && s[i] == StepColumn(pre[i], birdX)
      && (Offscreen(s[i]) ==> cols[..i] + cols[i + 1..] == pre[..i] + Survivors(s[i..])
                              && |Survivors(s[i..])| == |Survivors(s[i + 1..])|)
      && (!Offscreen(s[i]) ==> cols[i := s[i]] == pre[..i] + Survivors(s[i..])
                               && |Survivors(s[i..])| == |Survivors(s[i + 1..])| + 1)
      && Gain(pre[i..], birdX) == (if Passes(pre[i], birdX) then 1 else 0) + Gain(pre[i + 1..], birdX)
  {
    var s := Stepped(pre, birdX);
    var rest := Survivors(s[i + 1..]);
    assert s[i..][1..] == s[i + 1..];
    assert pre[i..][1..] == pre[i + 1..];
    assert pre[..i + 1] == pre[..i] + [pre[i]];
    assert cols == pre[..i] + [pre[i]] + rest;
    if Offscreen(s[i]) {
      assert Survivors(s[i..]) == rest;
      assert cols[..i] == pre[..i] && cols[i + 1..] == rest;
    } else {
      assert Survivors(s[i..]) == [s[i]] + rest;
    }
  }

  // ---------------------------------------------------------- lemmas: frame

  /** A frame that is not running leaves every global unchanged; a running one
      applies gravity to the velocity and then the velocity to the height, and
      leaves the bird's x and `started` alone. */
  lemma FramePhysics(w: World, u1: real, u2: real)
    requires 0.0 <= u1 < 1.0 && 0.0 <= u2 < 1.0
    ensures !Running(w) ==> Frame(w, u1, u2) == w
    ensures Running(w) ==> var f := Frame(w, u1, u2);
      f.vy == w.vy + GRAVITY && f.birdY == w.birdY + f.vy && f.birdX == w.birdX && f.started
  {
  }

  /** The counter stays in [0, SPAWN), and exactly one new column, built at
      x = W, joins the columns on precisely the frames where the counter
      reaches SPAWN. */
  lemma FrameSpawn(w: World, u1: real, u2: real)
    requires 0.0 <= u1 < 1.0 && 0.0 <= u2 < 1.0
    requires Inv(w) && Running(w)
    ensures 0 <= Frame(w, u1, u2).framesSinceSpawn < SPAWN
    ensures w.framesSinceSpawn + 1 == SPAWN ==>
      Frame(w, u1, u2).framesSinceSpawn == 0 && PreColumns(w, u1, u2) == w.cols + [MakeColumn(u1, u2)]
    ensures w.framesSinceSpawn + 1 != SPAWN ==>
      Frame(w, u1, u2).framesSinceSpawn == w.framesSinceSpawn + 1 && PreColumns(w, u1, u2) == w.cols
    ensures MakeColumn(u1, u2).x == W
  {
  }

  /** The reverse loop's effect (sketch.js:90-95): every column, the one just
      spawned included, is scrolled exactly once; exactly the columns with
      x + COL_W < 0 after the scroll are removed; the survivors keep their
      relative order, listed by their increasing positions `Kept`. */
  lemma {:induction false} FrameColumns(w: World, u1: real, u2: real)
    requires 0.0 <= u1 < 1.0 && 0.0 <= u2 < 1.0
    requires Running(w)
    ensures var pre, cols := PreColumns(w, u1, u2), Frame(w, u1, u2).cols;
      var kept := Kept(Stepped(pre, w.birdX), 0);
      && |cols| == |kept|
      && (forall k :: 0 <= k < |kept| ==>
            (&& 0 <= kept[k] < |pre|
             && cols[k].x == pre[kept[k]].x - SCROLL
             && cols[k].gapY == pre[kept[k]].gapY && cols[k].gapHLocal == pre[kept[k]].gapHLocal
             && cols[k].topTeeth == pre[kept[k]].topTeeth && cols[k].botTeeth == pre[kept[k]].botTeeth))
      && (forall k, l :: 0 <= k < l < |kept| ==> kept[k] < kept[l])
      && (forall j :: 0 <= j < |pre| ==> (j in kept <==> pre[j].x - SCROLL + COL_W >= 0.0))
  {
    var pre := PreColumns(w, u1, u2);
    SurvivorsAreKept(Stepped(pre, w.birdX));
  }

  /** Scoring (sketch.js:93): the score grows by exactly the number of columns
      whose flag flips from false to true, a column already scored never adds
      again, and the score never decreases. */
  lemma FrameScore(w: World, u1: real, u2: real)
    requires 0.0 <= u1 < 1.0 && 0.0 <= u2 < 1.0
    requires Running(w)
    ensures var pre := PreColumns(w, u1, u2);
      && Frame(w, u1, u2).score == w.score + Gain(pre, w.birdX)
      && CountScored(Stepped(pre, w.birdX)) == CountScored(pre) + Gain(pre, w.birdX)
      && (forall i :: 0 <= i < |pre| && pre[i].scored ==> !Passes(pre[i], w.birdX))
      && Frame(w, u1, u2).score >= w.score
  {
    GainIsNewlyScored(PreColumns(w, u1, u2), w.birdX);
  }

  /** The game-over decision of a running frame (sketch.js:98-105): the bird is
      out of bounds or overlaps and hits a surviving column. For a reachable
      state the `overlapsX` filter can be dropped: a hit alone decides. */
  lemma FrameGameOver(w: World, u1: real, u2: real)
    requires 0.0 <= u1 < 1.0 && 0.0 <= u2 < 1.0
    requires Inv(w) && Running(w)
    ensures var f := Frame(w, u1, u2);
      && (f.gameOver <==> OutOfBounds(f.birdY) || exists c :: c in f.cols && ColumnHit(c, f.birdX, f.birdY))
      && (f.gameOver <==> OutOfBounds(f.birdY) || exists c :: c in f.cols && CollidesWithCircle(c, f.birdX, f.birdY, BR))
  {
    var cols := Survivors(Stepped(PreColumns(w, u1, u2), w.birdX));
    var birdY := w.birdY + (w.vy + GRAVITY);
    var f := Frame(w, u1, u2);
    assert f.cols == cols && f.birdX == w.birdX && f.birdY == birdY;
    assert f.gameOver == (OutOfBounds(birdY) || AnyColumnHit(cols, w.birdX, birdY));
    SurvivorsWellFormed(w, u1, u2, cols);
    HitWithoutFilter(cols, w.birdX, birdY);
  }

  /** The columns a frame keeps are well formed. */
  lemma SurvivorsWellFormed(w: World, u1: real, u2: real, cols: seq<TeethCol>)
    requires 0.0 <= u1 < 1.0 && 0.0 <= u2 < 1.0
    requires Inv(w) && Running(w)
    requires cols == Survivors(Stepped(PreColumns(w, u1, u2), w.birdX))
    ensures forall i :: 0 <= i < |cols| ==> WellFormed(cols[i])
  {
    var pre := PreColumns(w, u1, u2);
    PreColumnsInv(w, u1, u2);
    var s := Stepped(pre, w.birdX);
    SteppedInv(pre, w.birdX);
    forall i | 0 <= i < |cols|
      ensures WellFormed(cols[i])
    {
      SurvivorsMember(s, cols[i]);
    }
  }

  /** Over well-formed columns the collision loop finds a hit exactly when some
      column collides with the bird: the `overlapsX` test only saves work. */
  lemma HitWithoutFilter(cols: seq<TeethCol>, birdX: real, birdY: real)
    requires forall i :: 0 <= i < |cols| ==> WellFormed(cols[i])
    ensures AnyColumnHit(cols, birdX, birdY) <==> exists c :: c in cols && ColumnHit(c, birdX, birdY)
    ensures AnyColumnHit(cols, birdX, birdY) <==> exists c :: c in cols && CollidesWithCircle(c, birdX, birdY, BR)
  {
    forall c | c in cols && CollidesWithCircle(c, birdX, birdY, BR)
      ensures ColumnHit(c, birdX, birdY)
    {
      OverlapsXIsSound(c, birdX, birdY, BR);
    }
  }

  /** Each column is scored exactly once: a running frame raises the score
      by the columns it removes (all of them scored) plus the change in the
      number of scored columns still on screen. */
  lemma FrameScoreAccounting(w: World, u1: real, u2: real)
    requires 0.0 <= u1 < 1.0 && 0.0 <= u2 < 1.0
    requires Inv(w) && Running(w)
    ensures var f, pre := Frame(w, u1, u2), PreColumns(w, u1, u2);
      && |f.cols| <= |pre|
      && f.score - CountScored(f.cols) == w.score - CountScored(w.cols) + (|pre| - |f.cols|)
  {
    var pre := PreColumns(w, u1, u2);
    PreColumnsInv(w, u1, u2);
    SteppedInv(pre, w.birdX);
    SurvivorsAccounting(Stepped(pre, w.birdX));
    GainIsNewlyScored(pre, w.birdX);
  }

  /** The invariant and the score accounting of class `Game`, carried over a
      running frame. */
  lemma FrameValid(w: World, u1: real, u2: real, passed: int)
    requires 0.0 <= u1 < 1.0 && 0.0 <= u2 < 1.0
    requires Inv(w) && Running(w) && w.score == CountScored(w.cols) + passed
    ensures var f := Frame(w, u1, u2);
      Inv(f) && f.score == CountScored(f.cols) + (passed + |PreColumns(w, u1, u2)| - |f.cols|)
  {
    FrameInv(w, u1, u2);
    FrameScoreAccounting(w, u1, u2);
  }

  /** Every frame keeps the invariant. */
  lemma FrameInv(w: World, u1: real, u2: real)
    requires 0.0 <= u1 < 1.0 && 0.0 <= u2 < 1.0
    requires Inv(w)
    ensures Inv(Frame(w, u1, u2))
  {
    if Running(w) {
      var pre := PreColumns(w, u1, u2);
      PreColumnsInv(w, u1, u2);
      var s := Stepped(pre, w.birdX);
      SteppedInv(pre, w.birdX);
      var cols := Survivors(s);
      SurvivorsSorted(s);
      forall i | 0 <= i < |cols|
        ensures WellFormed(cols[i]) && cols[i].x <= W - SCROLL
        ensures cols[i].scored <==> cols[i].x + COL_W < w.birdX
      {
        SurvivorsMember(s, cols[i]);
      }
      GainIsNewlyScored(pre, w.birdX);
      SurvivorsAccounting(s);
    }
  }

  /** The columns of a running frame before the loop: the new column is built at
      W, right of all others, unscored and not yet left of the bird. */
  lemma PreColumnsInv(w: World, u1: real, u2: real)
    requires 0.0 <= u1 < 1.0 && 0.0 <= u2 < 1.0
    requires Inv(w)
    ensures var pre := PreColumns(w, u1, u2);
      && (forall i :: 0 <= i < |pre| ==> WellFormed(pre[i]) && pre[i].x <= W)
      && (forall i :: 0 <= i < |pre| ==> (pre[i].scored <==> pre[i].x + COL_W < w.birdX))
      && SortedByX(pre)
      && CountScored(pre) == CountScored(w.cols)
  {
    if w.framesSinceSpawn + 1 >= SPAWN {
      var c := MakeColumn(u1, u2);
      CountScoredAppend(w.cols, [c]);
      assert CountScored([c]) == 0;
    }
  }

  /** Stepping every column keeps them well formed and in order, moves each to
      at most W - SCROLL, and keeps `scored` equal to "left of the bird". */
  lemma SteppedInv(pre: seq<TeethCol>, birdX: real)
    requires forall i :: 0 <= i < |pre| ==> WellFormed(pre[i]) && pre[i].x <= W
    requires forall i :: 0 <= i < |pre| ==> (pre[i].scored <==> pre[i].x + COL_W < birdX)
    requires SortedByX(pre)
    requires birdX >= 0.0
    ensures var s := Stepped(pre, birdX);
      && (forall i :: 0 <= i < |s| ==> WellFormed(s[i]) && s[i].x <= W - SCROLL)
      && (forall i :: 0 <= i < |s| ==> (s[i].scored <==> s[i].x + COL_W < birdX))
      && (forall i :: 0 <= i < |s| && Offscreen(s[i]) ==> s[i].scored)
      && SortedByX(s)
  {
    var s := Stepped(pre, birdX);
    forall i | 0 <= i < |s|
      ensures WellFormed(s[i])
    {
      assert s[i] == StepColumn(pre[i], birdX);
    }
  }

  /** `resetGame` establishes the invariant. */
  lemma ResetInv(startFromR: bool)
    ensures Inv(Reset(startFromR)) && Reset(startFromR).cols == []
  {
  }

  // --------------------------------------------------------- guideRouteY

  /** Column k is the one `guideRouteY` picks: right of the bird, with the
      smallest x among those, and the first such in the sequence on a tie. */
  predicate IsNearest(cols: seq<TeethCol>, birdX: real, k: int)
  {
    && 0 <= k < |cols| && cols[k].x > birdX
    && (forall j :: 0 <= j < |cols| && cols[j].x > birdX ==> cols[k].x <= cols[j].x)
    && (forall j :: 0 <= j < k && cols[j].x > birdX ==> cols[k].x < cols[j].x)
  }

  /** The height of the centre of a column's gap. */
  function GapCentre(c: TeethCol): real
  {
    c.gapY + c.gapHLocal as real * 0.5
  }

  /** The centre of a constructed column's gap is well below the top of the
      canvas, so the sentinel -1 of `guideRouteY` is never a real answer: the
      guide is drawn (gy > 0, sketch.js:63) exactly when a column lies ahead. */
  lemma GapCentreInside(c: TeethCol)
    requires WellFormed(c)
    ensures MARGIN + GAP_OFFSET + MIN_GAP_H as real * 0.5 <= GapCentre(c) < H - GROUND_H
  {
  }

  /** In a state whose columns are in spawn order the nearest column ahead is
      simply the first one right of the bird. */
  lemma {:induction false} NearestIsFirstAhead(cols: seq<TeethCol>, birdX: real, k: int)
    requires SortedByX(cols)
    requires 0 <= k < |cols| && cols[k].x > birdX
    requires forall j :: 0 <= j < k ==> cols[j].x <= birdX
    ensures IsNearest(cols, birdX, k)
  {
    forall j | 0 <= j < |cols| && cols[j].x > birdX
      ensures cols[k].x <= cols[j].x
    {
      if j > k {
        assert cols[k].x < cols[j].x;
      }
    }
  }

  // ----------------------------------------------------------------- class

  /** The globals of sketch.js:29-33, and the handlers that change them.
      `passed` counts the columns spliced off so far. */
  class Game {
    var birdX: real
    var birdY: real
    var vy: real
    var cols: seq<TeethCol>
    var framesSinceSpawn: int
    var score: int
    var started: bool
    var gameOver: bool
    ghost var passed: nat

    function State(): World
      reads this
    {
      World(birdX, birdY, vy, cols, framesSinceSpawn, score, started, gameOver)
    }

    /** The invariant, and the score counting exactly the columns passed: those
        already gone and the scored ones still on screen. */
    ghost predicate Valid()
      reads this
    {
      Inv(State()) && score == CountScored(cols) + passed
    }

    /** `setup` ends with `resetGame(false)` (sketch.js:54). */
    constructor ()
      ensures Valid() && State() == Reset(false) && passed == 0
    {
      birdX, birdY, vy := BX_START, BY_START, 0.0;
      cols := [];
      framesSinceSpawn, score := 0, 0;
      gameOver, started := false, false;
      passed := 0;
    }

    /** `flap` (sketch.js:133-136): while the game runs, the velocity becomes
        LIFT; otherwise nothing changes. */
    method Flap()
      requires Valid()
      modifies this`vy
      ensures Valid()
      ensures vy == if old(started) && !old(gameOver) then LIFT else old(vy)
    {
      if !started || gameOver {
        return;
      }
      vy := LIFT;
    }

    /** The state part of `resetGame` (sketch.js:139-147). */
    method ResetGame(startFromR: bool)
      modifies this
      ensures Valid() && State() == Reset(startFromR) && passed == 0
    {
      birdX := W * 0.30;
      birdY := H * 0.50;
      vy := 0.0;
      cols := [];
      framesSinceSpawn := 0;
      score := 0;
      gameOver := false;
      started := startFromR;
      passed := 0;
    }

    /** The update part of one `draw` call (sketch.js:68-109). The draws u1, u2
        are the two `random` results the constructor of a spawned column uses.
        On a running frame `passed` grows by the number of columns removed. */
    method Tick(u1: real, u2: real)
      requires Valid()
      requires 0.0 <= u1 < 1.0 && 0.0 <= u2 < 1.0
      modifies this
      ensures Valid()
      ensures State() == Frame(old(State()), u1, u2)
      ensures passed == old(passed) + if Running(old(State()))
        then |PreColumns(old(State()), u1, u2)| - |cols| else 0
    {
      if !started {
        return;
      }
      if gameOver {
        return;
      }
      ghost var w, passed0 := State(), passed;
      Advance(u1, u2);
      assert cols == PreColumns(w, u1, u2);
      UpdateColumns();
      DetectCollision();
      FrameOfRunning(w, u1, u2, birdX, birdY, vy, cols, framesSinceSpawn, score, gameOver);
      assert State() == Frame(w, u1, u2);
      FrameValid(w, u1, u2, passed0);
    }

    /** The first part of a running frame (sketch.js:77-87): gravity, the
        bird's move, and a new column every `SPAWN` frames. */
    method Advance(u1: real, u2: real)
      requires 0.0 <= u1 < 1.0 && 0.0 <= u2 < 1.0
      modifies this`vy, this`birdY, this`framesSinceSpawn, this`cols
      ensures vy == old(vy) + GRAVITY && birdY == old(birdY) + vy
      ensures framesSinceSpawn == if old(framesSinceSpawn) + 1 >= SPAWN then 0 else old(framesSinceSpawn) + 1
      ensures cols == if old(framesSinceSpawn) + 1 >= SPAWN then old(cols) + [MakeColumn(u1, u2)] else old(cols)
    {
      vy := vy + GRAVITY;
      birdY := birdY + vy;
      framesSinceSpawn := framesSinceSpawn + 1;
      if framesSinceSpawn >= SPAWN {
        var c := NewColumn(u1, u2);
        cols := cols + [c];
        framesSinceSpawn := 0;
      }
    }

    /** The reverse loop of sketch.js:90-95: scroll and score each column, last
        to first, splicing out the ones that went offscreen. */
    method UpdateColumns()
      modifies this`cols, this`score, this`passed
      ensures cols == Survivors(Stepped(old(cols), birdX))
      ensures score == old(score) + Gain(old(cols), birdX)
      ensures passed == old(passed) + (|old(cols)| - |cols|)
    {
      ghost var pre := cols;
      ghost var stepped := Stepped(pre, birdX);
      var i := |cols| - 1;
      while i >= 0
        invariant -1 <= i < |pre|
        invariant cols == pre[..i + 1] + Survivors(stepped[i + 1..])
        invariant score == old(score) + Gain(pre[i + 1..], birdX)
        invariant passed == old(passed) + (|pre| - (i + 1) - |Survivors(stepped[i + 1..])|)
      {
        ReverseStep(pre, birdX, i, cols);
        var c := cols[i];
        c := Update(c);
        if !c.scored && c.x + COL_W < birdX {
          score := score + 1;
          c := c.(scored := true);
        }
        assert c == stepped[i];
        if Offscreen(c) {
          cols := cols[..i] + cols[i + 1..];
          passed := passed + 1;
        } else {
          cols := cols[i := c];
        }
        i := i - 1;
      }
      assert stepped[0..] == stepped && pre[0..] == pre;
    }

    /** The world collisions of sketch.js:98-105: out of bounds, or else the
        first column the bird overlaps and hits. */
    method DetectCollision()
      requires !gameOver
      modifies this`gameOver
      ensures gameOver == (OutOfBounds(birdY) || AnyColumnHit(cols, birdX, birdY))
    {
      if birdY + BR > H - GROUND_H || birdY - BR < 0.0 {
        gameOver := true;
      } else {
        for j := 0 to |cols|
          invariant !gameOver
          invariant forall k :: 0 <= k < j ==> !ColumnHit(cols[k], birdX, birdY)
        {
          if OverlapsX(cols[j], birdX, BR) && CollidesWithCircle(cols[j], birdX, birdY, BR) {
            gameOver := true;
            break;
          }
        }
      }
    }

    /** `guideRouteY` (sketch.js:173-178): the centre of the gap of the nearest
        column right of the bird, or -1 when there is none. `next < 0` stands
        for the source's `next = null` with `minX` still infinite. */
    method GuideRouteY() returns (gy: real)
      ensures (forall k :: 0 <= k < |cols| ==> cols[k].x <= birdX) ==> gy == -1.0
      ensures (exists k :: 0 <= k < |cols| && cols[k].x > birdX) ==>
        exists k :: IsNearest(cols, birdX, k) && gy == GapCentre(cols[k])
    {
      var next := -1;
      var minX := 0.0;
      for j := 0 to |cols|
        invariant -1 <= next < j
        invariant next < 0 <==> forall k :: 0 <= k < j ==> cols[k].x <= birdX
        invariant next >= 0 ==> minX == cols[next].x && IsNearest(cols[..j], birdX, next)
      {
        if cols[j].x > birdX && (next < 0 || cols[j].x < minX) {
          minX := cols[j].x;
          next := j;
        }
      }
      assert cols[..|cols|] == cols;
      if next < 0 {
        return -1.0;
      }
      return cols[next].gapY + cols[next].gapHLocal as real * 0.5;
    }
  }
}
