/** Where a list of BARs ends up when each in turn asks the MMIO hole for a window, and when they
    decode without overlapping afterwards. */
module RelocationPlan {
  import opened Words
  import opened BumpAllocator
  import opened Arenas
  import opened Pcie

  predicate Movable(b: Bar) { b.isValid && b.size > 0 }

  /** The addresses a BAR decodes. */
  function Decodes(b: Bar): Span { Span(b.base, b.base + b.size) }

  /** What is done so far: the BARs, what is left of the hole, and the windows handed out. */
  datatype Plan = Plan(bars: seq<Bar>, bump: BumpView, windows: seq<Span>)

  /** The hole has a naturally aligned window for the BAR. */
  ghost predicate HasWindow(h: BumpView, b: Bar) {
    Movable(b) && IsPow2(b.size) && b.size < TWO64 && h.HasPlace(b.size, b.size)
  }

  function WindowAt(h: BumpView, b: Bar): nat
    requires 0 < b.size < TWO64
  {
    AlignUp(h.next, b.size)
  }

  /** The BAR moves: a window at address 0 is handed out too, but taken for a failure. */
  ghost predicate Relocates(h: BumpView, b: Bar) { HasWindow(h, b) && WindowAt(h, b) != NULL }

  /** One BAR: its record afterwards, the hole, and the window handed out, if any. */
  ghost function PlanStep(q: Plan, b: Bar): Plan {
    var h := q.bump;
    if HasWindow(h, b) then
      var p := WindowAt(h, b);
      Plan(q.bars + [if p != NULL then b.(base := p) else b], h.(next := p + b.size), q.windows + [Span(p, p + b.size)])
    else q.(bars := q.bars + [b])
  }

  /** All BARs in order, from a hole `h`. */
  ghost function PlanFor(h: BumpView, bars: seq<Bar>): (q: Plan)
    ensures |q.bars| == |bars|
  {
    if bars == [] then Plan([], h, []) else PlanStep(PlanFor(h, bars[..|bars| - 1]), bars[|bars| - 1])
  }

  ghost function Joined(q: Plan, r: Plan): Plan {
    Plan(q.bars + r.bars, r.bump, q.windows + r.windows)
  }

  lemma PlanSuffix(h: BumpView, bars: seq<Bar>, i: nat)
    requires i < |bars|
    ensures PlanFor(h, bars[..i + 1]) == PlanStep(PlanFor(h, bars[..i]), bars[i])
  {
    assert bars[..i + 1][..i] == bars[..i];
  }

  lemma JoinedStep(q: Plan, r: Plan, b: Bar)
    ensures PlanStep(Joined(q, r), b) == Joined(q, PlanStep(r, b))
  {
  }

  lemma {:induction false} PlanConcat(h: BumpView, a: seq<Bar>, b: seq<Bar>)
    ensures PlanFor(h, a + b) == Joined(PlanFor(h, a), PlanFor(PlanFor(h, a).bump, b))
    decreases |b|
  {
    if b == [] {
      assert a + b == a;
    } else {
      var front := b[..|b| - 1];
      PlanConcat(h, a, front);
      assert (a + b)[..|a + b| - 1] == a + front;
      JoinedStep(PlanFor(h, a), PlanFor(PlanFor(h, a).bump, front), b[|b| - 1]);
    }
  }

  // ---- the hole while the plan goes on ----

  /** What one request does to the hole. */
  lemma NextBump(q: Plan, b: Bar)
    requires q.bump.Valid()
    ensures var h, k := q.bump, PlanStep(q, b).bump;
            && k.Valid() && k.start == h.start && k.size == h.size && h.next <= k.next
            && (HasWindow(h, b) ==> h.IsPlace(b.size, b.size, WindowAt(h, b)) && k.next == WindowAt(h, b) + b.size)
  {
    if HasWindow(q.bump, b) { PlaceIsRoundedUp(q.bump, b.size, b.size); }
  }

  lemma {:induction false} PlanBump(h: BumpView, bars: seq<Bar>)
    requires h.Valid()
    ensures var k := PlanFor(h, bars).bump;
            k.Valid() && k.start == h.start && k.size == h.size && h.next <= k.next
    decreases |bars|
  {
    if bars != [] {
      PlanBump(h, bars[..|bars| - 1]);
      NextBump(PlanFor(h, bars[..|bars| - 1]), bars[|bars| - 1]);
    }
  }

  /** The hole only fills up. */
  lemma PlanBumpGrows(h: BumpView, bars: seq<Bar>, i: nat, j: nat)
    requires h.Valid() && i <= j <= |bars|
    ensures PlanFor(h, bars[..i]).bump.Valid()
    ensures PlanFor(h, bars[..i]).bump.next <= PlanFor(h, bars[..j]).bump.next
    ensures PlanFor(h, bars[..i]).bump.End() == PlanFor(h, bars[..j]).bump.End()
  {
    PlanBump(h, bars[..i]);
    PlanConcat(h, bars[..i], bars[i..j]);
    assert bars[..j] == bars[..i] + bars[i..j];
    PlanBump(PlanFor(h, bars[..i]).bump, bars[i..j]);
  }

  // ---- what becomes of one BAR ----

  /** Sizes are what the probe finds on hardware. */
  ghost predicate SizesOk(bars: seq<Bar>) {
    forall i | 0 <= i < |bars| && bars[i].isValid && bars[i].size > 0 :: IsPow2(bars[i].size) && bars[i].size < TWO64
  }

  /** BAR `b` became `b'`, and the hole went from `h` to `k`, with the windows `taken` handed out: a
      valid BAR with a size gets the lowest naturally aligned window left and moves there, unless
      that is address 0; without a window, or when it is not to be moved, nothing changes. */
  ghost predicate Outcome(h: BumpView, b: Bar, b': Bar, k: BumpView, taken: seq<Span>) {
    if b.isValid && b.size > 0 && h.HasPlace(b.size, b.size) then
      exists p: nat :: GetsWindow(h, b, b', k, taken, p)
    else b' == b && k == h && taken == []
  }

  ghost predicate GetsWindow(h: BumpView, b: Bar, b': Bar, k: BumpView, taken: seq<Span>, p: nat)
    requires b.size > 0
  {
    && h.IsPlace(b.size, b.size, p) && k == h.(next := p + b.size) && taken == [Span(p, p + b.size)]
    && b' == if p == 0 then b else b.(base := p)
  }

  /** The step of the plan does just that. */
  lemma StepOutcome(q: Plan, b: Bar)
    requires q.bump.Valid() && (b.isValid && b.size > 0 ==> IsPow2(b.size) && b.size < TWO64)
    ensures var r := PlanStep(q, b);
            && |r.bars| == |q.bars| + 1 && |q.windows| <= |r.windows| && r.windows[..|q.windows|] == q.windows
            && Outcome(q.bump, b, r.bars[|q.bars|], r.bump, r.windows[|q.windows|..])
  {
    if HasWindow(q.bump, b) {
      var p := WindowAt(q.bump, b);
      WindowOutcome(q.bump, b);
      OneMore(q.bars, if p != NULL then b.(base := p) else b);
      OneMore(q.windows, Span(p, p + b.size));
    } else {
      OneMore(q.bars, b);
      StayOutcome(q.bump, b);
    }
  }

  lemma WindowOutcome(h: BumpView, b: Bar)
    requires h.Valid() && HasWindow(h, b)
    ensures var p := WindowAt(h, b);
            Outcome(h, b, if p != NULL then b.(base := p) else b, h.(next := p + b.size), [Span(p, p + b.size)])
  {
    var p := WindowAt(h, b);
    PlaceIsRoundedUp(h, b.size, b.size);
    assert GetsWindow(h, b, if p != NULL then b.(base := p) else b, h.(next := p + b.size), [Span(p, p + b.size)], p);
  }

  lemma StayOutcome(h: BumpView, b: Bar)
    requires !HasWindow(h, b) && (b.isValid && b.size > 0 ==> IsPow2(b.size) && b.size < TWO64)
    ensures Outcome(h, b, b, h, [])
  {
  }

  lemma OneMore<T>(s: seq<T>, x: T)
    ensures (s + [x])[..|s|] == s && (s + [x])[|s|..] == [x] && (s + [x])[|s|] == x
  {
  }

  /** So each BAR of a list, when its turn comes. */
  lemma BarOutcome(h: BumpView, bars: seq<Bar>, i: nat)
    requires h.Valid() && i < |bars| && SizesOk(bars)
    ensures TurnOutcome(h, bars, i, PlanFor(h, bars).bars[i])
  {
    PlanBump(h, bars[..i]);
    PlanSuffix(h, bars, i);
    StepOutcome(PlanFor(h, bars[..i]), bars[i]);
    BarIsDone(h, bars, i);
  }

  /** Later BARs change nothing of BAR `i`. */
  lemma BarIsDone(h: BumpView, bars: seq<Bar>, i: nat)
    requires i < |bars|
    ensures PlanFor(h, bars).bars[i] == PlanFor(h, bars[..i + 1]).bars[i]
  {
    PlanConcat(h, bars[..i + 1], bars[i + 1..]);
    assert bars == bars[..i + 1] + bars[i + 1..];
  }

  /** The outcome for BAR `i`, from the hole as the BARs before it left it. */
  ghost predicate TurnOutcome(h: BumpView, bars: seq<Bar>, i: nat, b': Bar)
    requires i < |bars|
  {
    var q, r := PlanFor(h, bars[..i]), PlanFor(h, bars[..i + 1]);
    && |q.windows| <= |r.windows| && r.windows[..|q.windows|] == q.windows
    && Outcome(q.bump, bars[i], b', r.bump, r.windows[|q.windows|..])
  }

  /** BAR `i` of the list moves. */
  ghost predicate Placed(h: BumpView, bars: seq<Bar>, i: nat)
    requires i < |bars|
  {
    Relocates(PlanFor(h, bars[..i]).bump, bars[i])
  }

  lemma PlannedBar(h: BumpView, bars: seq<Bar>, i: nat)
    requires i < |bars|
    ensures var k := PlanFor(h, bars[..i]).bump;
            PlanFor(h, bars).bars[i] == if Placed(h, bars, i) then bars[i].(base := WindowAt(k, bars[i])) else bars[i]
  {
    PlanSuffix(h, bars, i);
    BarIsDone(h, bars, i);
  }

  /** A BAR that moves decodes a naturally aligned window, cut from the hole when its turn came. */
  lemma PlacedWindow(h: BumpView, bars: seq<Bar>, i: nat)
    requires h.Valid() && i < |bars| && Placed(h, bars, i)
    ensures var b := PlanFor(h, bars).bars[i];
            && b.isValid && b.size > 0 && b == bars[i].(base := b.base) && b.base % b.size == 0
            && PlanFor(h, bars[..i]).bump.next <= b.base && Decodes(b).to <= PlanFor(h, bars[..i + 1]).bump.next
            && Decodes(b).to <= h.End()
  {
    PlannedBar(h, bars, i);
    PlanSuffix(h, bars, i);
    PlanBump(h, bars[..i]);
    NextBump(PlanFor(h, bars[..i]), bars[i]);
  }

  /** A BAR that stays has no room left in the hole, or its window was at address 0. */
  lemma StaysWithoutRoom(h: BumpView, bars: seq<Bar>, i: nat)
    requires h.Valid() && i < |bars| && bars[i].isValid && bars[i].size > 0
    requires IsPow2(bars[i].size) && bars[i].size < TWO64
    requires !Placed(h, bars, i)
    ensures !PlanFor(h, bars).bump.HasPlace(bars[i].size, bars[i].size)
            || (h.next == 0 && PlanFor(h, bars[..i]).bump == h && WindowAt(h, bars[i]) == NULL)
  {
    var k, size := PlanFor(h, bars[..i]).bump, bars[i].size;
    assert bars[..|bars|] == bars;
    PlanBumpGrows(h, bars, i, |bars|);
    if k.HasPlace(size, size) {
      PlaceIsRoundedUp(k, size, size);
      PlanBump(h, bars[..i]);
      UntouchedAtZero(h, bars[..i]);
    } else {
      NoPlaceLater(k, PlanFor(h, bars).bump, size, size);
    }
  }

  /** A hole that still has everything from address 0 on has handed out nothing. */
  lemma {:induction false} UntouchedAtZero(h: BumpView, bars: seq<Bar>)
    requires h.Valid() && PlanFor(h, bars).bump.next == 0
    ensures PlanFor(h, bars).bump == h
    decreases |bars|
  {
    if bars != [] {
      var front := PlanFor(h, bars[..|bars| - 1]);
      PlanBump(h, bars[..|bars| - 1]);
      NextBump(front, bars[|bars| - 1]);
      UntouchedAtZero(h, bars[..|bars| - 1]);
    }
  }

  lemma NoPlaceLater(h: BumpView, k: BumpView, bytes: nat, a: nat)
    requires a > 0 && !h.HasPlace(bytes, a) && h.next <= k.next && k.End() == h.End()
    ensures !k.HasPlace(bytes, a)
  {
    if k.HasPlace(bytes, a) {
      var q :| k.Fits(bytes, a, q);
      assert h.Fits(bytes, a, q);
    }
  }

  // ---- when nothing overlaps ----

  /** Two BARs that are decoded at the same time in the same address space. */
  predicate Rivals(b: Bar, c: Bar) {
    b.isValid && b.size > 0 && c.isValid && c.size > 0 && b.isIO == c.isIO
  }

  ghost predicate DecodeApart(bars: seq<Bar>) {
    forall i, j | 0 <= i < j < |bars| && Rivals(bars[i], bars[j]) :: Apart(Decodes(bars[i]), Decodes(bars[j]))
  }

  lemma MovedApart(h: BumpView, bars: seq<Bar>, i: nat, j: nat)
    requires h.Valid() && i < j < |bars| && Placed(h, bars, i) && Placed(h, bars, j)
    ensures Apart(Decodes(PlanFor(h, bars).bars[i]), Decodes(PlanFor(h, bars).bars[j]))
  {
    PlacedWindow(h, bars, i);
    PlacedWindow(h, bars, j);
    PlanBumpGrows(h, bars, i + 1, j);
  }

  /** BAR `i` stays, and what it decodes misses what BAR `j` decodes in the end. */
  ghost predicate StaysClear(h: BumpView, bars: seq<Bar>, i: nat, j: nat)
    requires i < |bars| && j < |bars|
  {
    Apart(Decodes(bars[i]), Decodes(PlanFor(h, bars).bars[j]))
  }

  /** After relocation nothing overlaps exactly when each BAR without a window keeps clear of its
      rivals: of the windows handed out, and of the other BARs that stay. */
  lemma DecodeApartIff(h: BumpView, bars: seq<Bar>)
    requires h.Valid()
    ensures DecodeApart(PlanFor(h, bars).bars) <==>
            forall i, j | 0 <= i < |bars| && 0 <= j < |bars| && i != j && Rivals(bars[i], bars[j])
              && !Placed(h, bars, i) ::
              StaysClear(h, bars, i, j)
  {
    var after := PlanFor(h, bars).bars;
    forall i | 0 <= i < |bars|
      ensures after[i].isValid == bars[i].isValid && after[i].size == bars[i].size && after[i].isIO == bars[i].isIO
      ensures !Placed(h, bars, i) ==> after[i] == bars[i]
    {
      PlannedBar(h, bars, i);
    }
    if DecodeApart(after) {
      forall i, j | 0 <= i < |bars| && 0 <= j < |bars| && i != j && Rivals(bars[i], bars[j]) && !Placed(h, bars, i)
        ensures StaysClear(h, bars, i, j)
      {
        assert Rivals(after[if i < j then i else j], after[if i < j then j else i]);
      }
    }
    if forall i, j | 0 <= i < |bars| && 0 <= j < |bars| && i != j && Rivals(bars[i], bars[j]) && !Placed(h, bars, i) ::
         StaysClear(h, bars, i, j)
    {
      forall i, j | 0 <= i < j < |bars| && Rivals(after[i], after[j])
        ensures Apart(Decodes(after[i]), Decodes(after[j]))
      {
        if !Placed(h, bars, i) {
          assert StaysClear(h, bars, i, j);
        } else if !Placed(h, bars, j) {
          assert StaysClear(h, bars, j, i);
        } else {
          MovedApart(h, bars, i, j);
        }
      }
    }
  }
}
