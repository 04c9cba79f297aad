/** Runs of requests for frames, when every page of the allocator holds one frame. */
module HoleRuns {
  import opened Memory
  import opened Translation
  import opened Holes
  import opened PageTables
  import opened HoleFrames

  /** One request: the lowest frame, and when it lies in a hole the next one, if any is left. */
  ghost predicate Asks(l: Layout, used: set<nat>, used': set<nat>) {
    exists a: nat :: Lowest(l, used, a) && AsksFrom(l, used, a, used')
  }

  ghost predicate AsksFrom(l: Layout, used: set<nat>, a: nat, used': set<nat>) {
    if InHole(l.holes, a) then
      (AllUsed(l, used + {a}) && used' == used + {a}) || exists b: nat :: Lowest(l, used + {a}, b) && used' == used + {a} + {b}
    else
      used' == used + {a}
  }

  lemma AskedTwice(l: Layout, used: set<nat>, a: nat, b: nat)
    requires Lowest(l, used, a) && InHole(l.holes, a) && Lowest(l, used + {a}, b)
    ensures Asks(l, used, used + {a} + {b}) && Asks(l, used, used + ({a} + {b}))
  {
    hide Lowest, InHole;
    assert used + ({a} + {b}) == used + {a} + {b};
    assert AsksFrom(l, used, a, used + {a} + {b});
  }

  lemma AskedLast(l: Layout, used: set<nat>, a: nat)
    requires Lowest(l, used, a) && InHole(l.holes, a) && AllUsed(l, used + {a})
    ensures Asks(l, used, used + {a})
  {
    hide Lowest, InHole, AllUsed;
    assert AsksFrom(l, used, a, used + {a});
  }

  lemma AskedOnce(l: Layout, used: set<nat>, a: nat)
    requires Lowest(l, used, a) && !InHole(l.holes, a)
    ensures Asks(l, used, used + {a})
  {
    hide Lowest, InHole;
    assert AsksFrom(l, used, a, used + {a});
  }

  /** One release; frames in holes are never released. */
  ghost predicate GivesBack(l: Layout, used: set<nat>, used': set<nat>) {
    exists f: nat :: f in used && !InHole(l.holes, f) && used' == used - {f}
  }

  ghost predicate IsUse(l: Layout, us: seq<set<nat>>) {
    && us != [] && us[0] == {}
    && forall k | 0 <= k < |us| - 1 :: Asks(l, us[k], us[k + 1]) || GivesBack(l, us[k], us[k + 1])
  }

  lemma UseKeeps(l: Layout, used: set<nat>, used': set<nat>)
    requires HolesFirst(l, used) && (Asks(l, used, used') || GivesBack(l, used, used'))
    ensures HolesFirst(l, used')
  {
    hide InHole, IsFrame, HolesFirst, Lowest;
    if Asks(l, used, used') {
      var a: nat :| Lowest(l, used, a) && AsksFrom(l, used, a, used');
      LowestKeeps(l, used, a);
      if b: nat :| Lowest(l, used + {a}, b) && used' == used + {a} + {b} {
        LowestKeeps(l, used + {a}, b);
      }
    } else {
      var f: nat :| f in used && !InHole(l.holes, f) && used' == used - {f};
      BackKeeps(l, used, f);
    }
  }

  lemma BackKeeps(l: Layout, used: set<nat>, f: nat)
    requires HolesFirst(l, used) && !InHole(l.holes, f)
    ensures HolesFirst(l, used - {f})
  {
    hide InHole, IsFrame;
  }

  lemma {:induction false} UseRunKeeps(l: Layout, us: seq<set<nat>>, k: nat)
    requires IsUse(l, us) && k < |us|
    ensures HolesFirst(l, us[k])
  {
    hide Asks, GivesBack, IsHoleFrame;
    if k > 0 {
      UseRunKeeps(l, us, k - 1);
      assert Asks(l, us[k - 1], us[k - 1 + 1]) || GivesBack(l, us[k - 1], us[k - 1 + 1]);
      UseKeeps(l, us[k - 1], us[k]);
    }
  }

  /** The frames below x. */
  ghost function Below(l: Layout, x: nat): set<nat> {
    set f: nat | f < x && InRange(l, f)
  }

  lemma BelowNext(l: Layout, x: nat)
    requires x % PAGE_SIZE == 0
    ensures if InRange(l, x) then Below(l, x + PAGE_SIZE) == Below(l, x) + {x} && Lowest(l, Below(l, x), x)
      else Below(l, x + PAGE_SIZE) == Below(l, x)
  {
    forall f: nat | x < f && InRange(l, f) ensures x + PAGE_SIZE <= f {
    }
  }

  /** The next frame of the range is the next one served; behind the last one nothing is left. */
  lemma LastFrame(l: Layout, x: nat)
    requires InRange(l, x) && !InRange(l, x + PAGE_SIZE)
    ensures AllUsed(l, Below(l, x) + {x})
  {
    forall f: nat | InRange(l, f) ensures f in Below(l, x) + {x} {
      if x < f {
        NextFrame(l, x, f);
      }
    }
  }

  ghost predicate Strayed(l: Layout, us: seq<set<nat>>) {
    exists k :: 0 <= k < |us| && TwoHolesNext(l, us[k])
  }

  lemma UseMore(l: Layout, us: seq<set<nat>>, used: set<nat>)
    requires IsUse(l, us) && Asks(l, us[|us| - 1], used)
    ensures IsUse(l, us + [used])
  {
    hide Asks, GivesBack;
    var vs := us + [used];
    forall k | 0 <= k < |vs| - 1 ensures Asks(l, vs[k], vs[k + 1]) || GivesBack(l, vs[k], vs[k + 1]) {
      if k < |us| - 1 {
        assert Asks(l, us[k], us[k + 1]) || GivesBack(l, us[k], us[k + 1]);
      }
    }
  }

  /** Requests alone fill the range from below, up to frame n or one further, unless one is served from a hole. */
  lemma {:induction false} Fill(l: Layout, n: nat) returns (us: seq<set<nat>>)
    ensures IsUse(l, us)
    ensures Strayed(l, us) || us[|us| - 1] == Below(l, n * PAGE_SIZE) ||
      (us[|us| - 1] == Below(l, n * PAGE_SIZE + PAGE_SIZE) && !InHole(l.holes, n * PAGE_SIZE))
  {
    hide InHole, IsUse, Asks, Below, TwoHolesNext, InRange;
    if n == 0 {
      NothingBelow(l);
      return [{}];
    }
    us := Fill(l, n - 1);
    var x := (n - 1) * PAGE_SIZE;
    assert x + PAGE_SIZE == n * PAGE_SIZE && x % PAGE_SIZE == 0;
    UseSome(l, us);
    BelowNext(l, x);
    if !Strayed(l, us) && us[|us| - 1] == Below(l, x) && InRange(l, x) {
      us := FillNext(l, us, x);
    }
  }

  lemma NothingBelow(l: Layout)
    ensures IsUse(l, [{}]) && Below(l, 0) == {}
  {
  }

  lemma UseSome(l: Layout, us: seq<set<nat>>)
    requires IsUse(l, us)
    ensures us != []
  {
    hide Asks, GivesBack;
  }

  lemma FillNext(l: Layout, us: seq<set<nat>>, x: nat) returns (vs: seq<set<nat>>)
    requires IsUse(l, us) && us != [] && us[|us| - 1] == Below(l, x) && x % PAGE_SIZE == 0 && InRange(l, x)
    ensures IsUse(l, vs) && vs != []
    ensures Strayed(l, vs) || vs[|vs| - 1] == Below(l, x + PAGE_SIZE) ||
      (vs[|vs| - 1] == Below(l, x + PAGE_SIZE + PAGE_SIZE) && !InHole(l.holes, x + PAGE_SIZE))
  {
    hide InHole, IsUse, Below, InRange, Lowest, AllUsed;
    var used, y := Below(l, x), x + PAGE_SIZE;
    BelowNext(l, x);
    BelowNext(l, y);
    vs := us;
    if !InHole(l.holes, x) {
      assert AsksFrom(l, used, x, used + {x});
      vs := us + [used + {x}];
      UseMore(l, us, used + {x});
    } else if !InRange(l, y) {
      LastFrame(l, x);
      assert AsksFrom(l, used, x, used + {x});
      vs := us + [used + {x}];
      UseMore(l, us, used + {x});
    } else if InHole(l.holes, y) {
      assert TwoHolesNext(l, us[|us| - 1]);
    } else {
      assert AsksFrom(l, used, x, used + {x} + {y});
      vs := us + [used + {x} + {y}];
      UseMore(l, us, used + {x} + {y});
    }
  }

  /** One thread at a time: no run of requests and releases is served from a hole exactly when no two frames in holes
    are neighbours. */
  lemma SequentialIff(l: Layout)
    ensures Spaced(l) <==> forall us | IsUse(l, us) :: !Strayed(l, us)
  {
    hide InHole, IsUse, InRange, Spaced, HolesFirst, TwoHolesNext, Below;
    if Spaced(l) {
      forall us, k | IsUse(l, us) && 0 <= k < |us| ensures !TwoHolesNext(l, us[k]) {
        UseRunKeeps(l, us, k);
        SpacedNext(l, us[k]);
      }
    } else {
      var us := Neighbours(l);
    }
  }

  lemma Neighbours(l: Layout) returns (us: seq<set<nat>>)
    requires !Spaced(l)
    ensures IsUse(l, us) && Strayed(l, us)
  {
    hide InHole, IsUse, Below, IsFrame;
    var a: nat, b: nat :| IsHoleFrame(l, a) && IsHoleFrame(l, b) && b == a + PAGE_SIZE;
    FrameNumber(a);
    us := Fill(l, a / PAGE_SIZE);
    BelowNext(l, a);
    BelowNext(l, b);
    UseSome(l, us);
    assert us[|us| - 1] == Below(l, a) ==> TwoHolesNext(l, us[|us| - 1]);
  }

  lemma FrameNumber(a: nat)
    requires IsFrame(a)
    ensures a / PAGE_SIZE * PAGE_SIZE == a && a % PAGE_SIZE == 0
  {
  }

  // ---- several threads ----

  /** The frames in use, and the threads that were served from a hole and will ask once more. The lock covers one request
    of the allocator, not a request and its retry. */
  datatype Shared = Shared(used: set<nat>, retrying: set<nat>)

  ghost predicate First(l: Layout, c: Shared, d: Shared, t: nat, a: nat) {
    && t !in c.retrying && Lowest(l, c.used, a)
    && d == Shared(c.used + {a}, if InHole(l.holes, a) then c.retrying + {t} else c.retrying)
  }

  ghost predicate Again(l: Layout, c: Shared, d: Shared, t: nat) {
    && t in c.retrying && d.retrying == c.retrying - {t}
    && ((AllUsed(l, c.used) && d.used == c.used) || exists a: nat :: Lowest(l, c.used, a) && d.used == c.used + {a})
  }

  ghost predicate SharedStep(l: Layout, c: Shared, d: Shared) {
    (exists t: nat, a: nat :: First(l, c, d, t, a)) || (exists t: nat :: Again(l, c, d, t)) ||
    (d.retrying == c.retrying && GivesBack(l, c.used, d.used))
  }

  /** The retry of some thread would be served from a hole again. */
  ghost predicate StraysNow(l: Layout, c: Shared) {
    c.retrying != {} && exists a: nat :: Lowest(l, c.used, a) && InHole(l.holes, a)
  }

  ghost predicate IsShared(l: Layout, cs: seq<Shared>) {
    && cs != [] && cs[0] == Shared({}, {})
    && forall k | 0 <= k < |cs| - 1 :: SharedStep(l, cs[k], cs[k + 1])
  }

  ghost predicate Strays(l: Layout, cs: seq<Shared>) {
    exists k :: 0 <= k < |cs| && StraysNow(l, cs[k])
  }

  /** While a thread is retrying, some frame in a hole is in use. */
  ghost predicate HoleUsed(l: Layout, c: Shared) {
    c.retrying != {} ==> exists h: nat :: h in c.used && IsHoleFrame(l, h)
  }

  lemma SharedKeeps(l: Layout, c: Shared, d: Shared)
    requires HoleUsed(l, c) && SharedStep(l, c, d)
    ensures HoleUsed(l, d)
  {
    hide InRange, InHole;
    if t: nat, a: nat :| First(l, c, d, t, a) {
      assert InHole(l.holes, a) ==> IsHoleFrame(l, a);
    }
    if c.retrying != {} {
      var h: nat :| h in c.used && IsHoleFrame(l, h);
      assert h in d.used;
    }
  }

  lemma {:induction false} SharedRunKeeps(l: Layout, cs: seq<Shared>, k: nat)
    requires IsShared(l, cs) && k < |cs|
    ensures HoleUsed(l, cs[k])
  {
    hide SharedStep, IsHoleFrame;
    if k > 0 {
      SharedRunKeeps(l, cs, k - 1);
      assert SharedStep(l, cs[k - 1], cs[k - 1 + 1]);
      SharedKeeps(l, cs[k - 1], cs[k]);
    }
  }

  lemma OneHoleStays(l: Layout, c: Shared)
    requires OneHoleFrame(l) && HoleUsed(l, c)
    ensures !StraysNow(l, c)
  {
    hide InRange, InHole;
    forall a: nat | c.retrying != {} && Lowest(l, c.used, a) ensures !InHole(l.holes, a) {
      var h: nat :| h in c.used && IsHoleFrame(l, h);
      assert InHole(l.holes, a) ==> IsHoleFrame(l, a);
    }
  }

  ghost predicate HoleBelow(l: Layout, x: nat) {
    exists h: nat :: h < x && IsHoleFrame(l, h)
  }

  /** Every frame below x was taken once, those in holes by thread 1, which is retrying if there was any. */
  ghost function Filled(l: Layout, x: nat): Shared {
    Shared(Below(l, x), if HoleBelow(l, x) then {1} else {})
  }

  lemma SharedMore(l: Layout, cs: seq<Shared>, d: Shared)
    requires IsShared(l, cs) && SharedStep(l, cs[|cs| - 1], d)
    ensures IsShared(l, cs + [d])
  {
    hide SharedStep;
    var ds := cs + [d];
    forall k | 0 <= k < |ds| - 1 ensures SharedStep(l, ds[k], ds[k + 1]) {
      if k < |cs| - 1 {
        assert SharedStep(l, cs[k], cs[k + 1]);
      }
    }
  }

  lemma NothingFilled(l: Layout)
    ensures IsShared(l, [Shared({}, {})]) && Filled(l, 0) == Shared({}, {})
  {
    hide IsHoleFrame;
  }

  /** The next frame is taken, unless it lies in a hole and thread 1 is retrying. */
  lemma FilledNext(l: Layout, x: nat)
    requires x % PAGE_SIZE == 0
    ensures if !InRange(l, x) then Filled(l, x + PAGE_SIZE) == Filled(l, x)
      else if InHole(l.holes, x) && HoleBelow(l, x) then StraysNow(l, Filled(l, x))
      else SharedStep(l, Filled(l, x), Filled(l, x + PAGE_SIZE))
  {
    hide InHole, InRange, Below, Lowest;
    BelowNext(l, x);
    HoleBelowNext(l, x);
    if InRange(l, x) && !(InHole(l.holes, x) && HoleBelow(l, x)) {
      assert First(l, Filled(l, x), Filled(l, x + PAGE_SIZE), if InHole(l.holes, x) then 1 else 0, x);
    }
  }

  lemma HoleBelowNext(l: Layout, x: nat)
    requires x % PAGE_SIZE == 0
    ensures HoleBelow(l, x + PAGE_SIZE) <==> HoleBelow(l, x) || IsHoleFrame(l, x)
  {
    hide InHole;
    if HoleBelow(l, x + PAGE_SIZE) && !IsHoleFrame(l, x) {
      var h: nat :| h < x + PAGE_SIZE && IsHoleFrame(l, h);
      assert h < x;
    }
    if HoleBelow(l, x) {
      var h: nat :| h < x && IsHoleFrame(l, h);
      assert h < x + PAGE_SIZE;
    }
    assert IsHoleFrame(l, x) ==> x < x + PAGE_SIZE;
  }

  lemma {:induction false} FillShared(l: Layout, n: nat) returns (cs: seq<Shared>)
    ensures IsShared(l, cs) && (Strays(l, cs) || (cs != [] && cs[|cs| - 1] == Filled(l, n * PAGE_SIZE)))
  {
    hide IsShared, Filled, StraysNow, InRange, InHole, HoleBelow, SharedStep;
    if n == 0 {
      NothingFilled(l);
      return [Shared({}, {})];
    }
    cs := FillShared(l, n - 1);
    var x := (n - 1) * PAGE_SIZE;
    assert x + PAGE_SIZE == n * PAGE_SIZE && x % PAGE_SIZE == 0;
    FilledNext(l, x);
    if !Strays(l, cs) && InRange(l, x) && !(InHole(l.holes, x) && HoleBelow(l, x)) {
      SharedMore(l, cs, Filled(l, x + PAGE_SIZE));
      cs := cs + [Filled(l, x + PAGE_SIZE)];
    }
  }

  /** Several threads: no run has a retry served from a hole exactly when at most one frame lies in a hole. Another thread
    can take the frames between two of them after the first request and before the retry. */
  lemma ConcurrentIff(l: Layout)
    ensures OneHoleFrame(l) <==> forall cs | IsShared(l, cs) :: !Strays(l, cs)
  {
    hide InHole, IsShared, InRange, StraysNow, HoleUsed, OneHoleFrame;
    if OneHoleFrame(l) {
      forall cs, k | IsShared(l, cs) && 0 <= k < |cs| ensures !StraysNow(l, cs[k]) {
        SharedRunKeeps(l, cs, k);
        OneHoleStays(l, cs[k]);
      }
    } else {
      var cs := TwoInHoles(l);
    }
  }

  lemma TwoInHoles(l: Layout) returns (cs: seq<Shared>)
    requires !OneHoleFrame(l)
    ensures IsShared(l, cs) && Strays(l, cs)
  {
    hide InHole, IsShared, StraysNow, IsFrame, Filled;
    var a: nat, b: nat :| IsHoleFrame(l, a) && IsHoleFrame(l, b) && a < b;
    FrameNumber(b);
    cs := FillShared(l, b / PAGE_SIZE);
    FilledNext(l, b);
    assert HoleBelow(l, b);
  }
}
