// The anti-replay window of src/transport/rgtp_replay.c. The four 64-bit words are one row of 256 bits.
module Replay {

  const WIDTH := 256

  datatype Verdict = Accept | Duplicate | TooOld

  datatype Window = Window(bits: seq<bool>, base: nat)

  const INITIAL := Window(seq(WIDTH, _ => false), 0)

  // The window after making room for n. A slide by less than 256 clears the lowest bits but does not
  // move the others, so afterwards they stand for different numbers.
  function Slide(w: Window, n: nat): (w': Window)
    requires |w.bits| == WIDTH && n >= w.base
    ensures |w'.bits| == WIDTH && w'.base <= n < w'.base + WIDTH
  {
    var offset := n - w.base;
    if offset < WIDTH then w
    else
      var advance := offset - WIDTH + 1;
      if advance >= WIDTH then Window(seq(WIDTH, _ => false), n)
      else Window(seq(WIDTH, i requires 0 <= i < WIDTH => i >= advance && w.bits[i]), w.base + advance)
  }

  // rgtp_replay_check_and_set
  function Check(w: Window, n: nat): (r: (Window, Verdict))
    requires |w.bits| == WIDTH
    ensures |r.0.bits| == WIDTH
  {
    if n < w.base then (w, TooOld)
    else
      var s := Slide(w, n);
      var i := n - s.base;
      if s.bits[i] then (s, Duplicate) else (s.(bits := s.bits[i := true]), Accept)
  }

  class ReplayWindow {
    const bitmap: array<bool>
    var base: nat

    ghost predicate Ready()
      reads this
    {
      bitmap.Length == WIDTH
    }

    ghost function Value(): Window
      reads this, bitmap
    {
      Window(bitmap[..], base)
    }

    // rgtp_replay_window_init
    constructor ()
      ensures Ready() && fresh(bitmap) && Value() == INITIAL
    {
      bitmap := new bool[WIDTH](_ => false);
      base := 0;
      new;
      assert bitmap[..] == seq(WIDTH, _ => false);
    }

    // rgtp_replay_check_and_set
    method CheckAndSet(n: nat) returns (v: Verdict)
      requires Ready()
      modifies this, bitmap
      ensures Ready() && (Value(), v) == Check(old(Value()), n)
    {
      ghost var w := Value();
      if n < base {
        return TooOld;
      }
      var offset := n - base;
      if offset >= WIDTH {
        var advance := offset - WIDTH + 1;
        if advance >= WIDTH {
          for i := 0 to WIDTH
            invariant base == w.base && forall j :: 0 <= j < i ==> !bitmap[j]
          {
            bitmap[i] := false;
          }
          base := n;
          offset := 0;
        } else {
          for i := 0 to advance
            invariant base == w.base
            invariant forall j :: 0 <= j < WIDTH ==> bitmap[j] == (j >= i && w.bits[j])
          {
            bitmap[i % WIDTH] := false;
          }
          base := base + advance;
          offset := n - base;
        }
      }
      assert bitmap[..] == Slide(w, n).bits;
      if bitmap[offset] {
        return Duplicate;
      }
      bitmap[offset] := true;
      return Accept;
    }
  }

  // ---- runs

  // The window after checking the numbers ns in order, and the verdicts.
  function Run(w: Window, ns: seq<nat>): (r: (Window, seq<Verdict>))
    requires |w.bits| == WIDTH
    ensures |r.0.bits| == WIDTH && |r.1| == |ns|
  {
    if ns == [] then (w, [])
    else
      var r := Run(w, ns[..|ns| - 1]);
      var c := Check(r.0, ns[|ns| - 1]);
      (c.0, r.1 + [c.1])
  }

  ghost function AcceptedBy(w: Window, ns: seq<nat>): set<nat>
    requires |w.bits| == WIDTH
  {
    if ns == [] then {}
    else
      var k := |ns| - 1;
      AcceptedBy(w, ns[..k]) + if Check(Run(w, ns[..k]).0, ns[k]).1.Accept? then {ns[k]} else {}
  }

  // w would not accept n again.
  ghost predicate Rejects(w: Window, n: nat)
    requires |w.bits| == WIDTH
  {
    n < w.base || (n < w.base + WIDTH && w.bits[n - w.base])
  }

  lemma RejectsIsRejected(w: Window, n: nat)
    requires |w.bits| == WIDTH && Rejects(w, n)
    ensures !Check(w, n).1.Accept? && Check(w, n).0 == w
  {}

  // The base never decreases, and nothing below it is ever accepted.
  lemma BaseMonotone(w: Window, n: nat)
    requires |w.bits| == WIDTH
    ensures w.base <= Check(w, n).0.base
    ensures Check(w, n).1.Accept? ==> n >= Check(w, n).0.base && n >= w.base && Rejects(Check(w, n).0, n)
  {}

  lemma {:induction false} RunMonotone(w: Window, ns: seq<nat>, more: seq<nat>)
    requires |w.bits| == WIDTH
    ensures Run(w, ns + more) == (var r := Run(w, ns); var q := Run(r.0, more); (q.0, r.1 + q.1))
    ensures Run(w, ns).0.base <= Run(w, ns + more).0.base
  {
    hide Check;
    if more == [] {
      assert ns + more == ns;
      assert Run(w, ns).1 + [] == Run(w, ns).1;
    } else {
      var k := |more| - 1;
      RunMonotone(w, ns, more[..k]);
      assert (ns + more)[..|ns + more| - 1] == ns + more[..k];
      BaseMonotone(Run(w, ns + more[..k]).0, more[k]);
      var a, b, c := Run(w, ns).1, Run(Run(w, ns).0, more[..k]).1, Check(Run(w, ns + more[..k]).0, more[k]).1;
      assert (a + b) + [c] == a + (b + [c]);
    }
  }

  // Once the base has passed n, no continuation of the run accepts n.
  lemma NeverBelowBase(w: Window, ns: seq<nat>, more: seq<nat>, n: nat)
    requires |w.bits| == WIDTH && n < Run(w, ns).0.base
    ensures Check(Run(w, ns + more).0, n) == (Run(w, ns + more).0, TooOld)
  {
    RunMonotone(w, ns, more);
  }

  // While the base stays put, an accepted number stays rejected.
  lemma {:induction false} SameBaseRejects(w: Window, ns: seq<nat>, n: nat)
    requires |w.bits| == WIDTH && Rejects(w, n) && Run(w, ns).0.base == w.base
    ensures Rejects(Run(w, ns).0, n)
  {
    if ns != [] {
      var k := |ns| - 1;
      assert ns[..k] + [ns[k]] == ns;
      RunMonotone(w, [], ns[..k]);
      assert [] + ns[..k] == ns[..k];
      RunMonotone(w, ns[..k], [ns[k]]);
      SameBaseRejects(w, ns[..k], n);
    }
  }

  // No number is accepted twice within a stretch of constant base.
  lemma StretchAtMostOnce(w: Window, n: nat, ns: seq<nat>)
    requires |w.bits| == WIDTH && Check(w, n).1.Accept?
    requires Run(Check(w, n).0, ns).0.base == Check(w, n).0.base
    ensures !Check(Run(Check(w, n).0, ns).0, n).1.Accept?
  {
    BaseMonotone(w, n);
    SameBaseRejects(Check(w, n).0, ns, n);
    RejectsIsRejected(Run(Check(w, n).0, ns).0, n);
  }

  // ---- at most once over a whole run is false

  // The numbers 5, 256, 5 from a fresh window: the slide by one leaves bit 5 behind, and 5 is now bit 4.
  lemma AcceptedTwice()
    ensures Run(INITIAL, [5, 256, 5]).1 == [Accept, Accept, Accept]
  {
    ThreeChecks();
    hide Check;
    assert [] + [5] == [5] && [5] + [256] == [5, 256] && [5, 256] + [5] == [5, 256, 5];
    RunOne(INITIAL, [], 5);
    RunOne(INITIAL, [5], 256);
    RunOne(INITIAL, [5, 256], 5);
  }

  lemma ThreeChecks()
    ensures var c1 := Check(INITIAL, 5); var c2 := Check(c1.0, 256); var c3 := Check(c2.0, 5);
            c1.1.Accept? && c2.1.Accept? && c3.1.Accept?
  {
    var w2 := Check(Check(INITIAL, 5).0, 256).0;
    assert w2.base == 1 && !w2.bits[4];
  }

  lemma RunOne(w: Window, ns: seq<nat>, n: nat)
    requires |w.bits| == WIDTH
    ensures Run(w, []) == (w, [])
    ensures var (r, c) := (Run(w, ns), Check(Run(w, ns).0, n)); Run(w, ns + [n]) == (c.0, r.1 + [c.1])
  {
    assert (ns + [n])[..|ns|] == ns;
  }

  // ---- exactly when the window is safe

  // A check of n moves the base by 1 to 255.
  predicate PartialSlide(base: nat, n: nat) {
    base + WIDTH <= n < base + 2 * WIDTH - 1
  }

  // Where the base stands after the numbers ns, whatever the bits are.
  function BaseAfter(base: nat, ns: seq<nat>): nat {
    if ns == [] then base
    else
      var b, n := BaseAfter(base, ns[..|ns| - 1]), ns[|ns| - 1];
      if n < b + WIDTH then b else if PartialSlide(b, n) then n - WIDTH + 1 else n
  }

  lemma {:induction false} RunBase(w: Window, ns: seq<nat>)
    requires |w.bits| == WIDTH
    ensures Run(w, ns).0.base == BaseAfter(w.base, ns)
  {
    if ns != [] { RunBase(w, ns[..|ns| - 1]); }
  }

  // The condition on the numbers alone: one that slides the window partially lies 256 or more above
  // every number before it.
  ghost predicate ClearAt(base: nat, ns: seq<nat>, m: nat)
    requires m < |ns|
  {
    PartialSlide(BaseAfter(base, ns[..m]), ns[m]) ==> forall i :: 0 <= i < m ==> ns[i] + WIDTH <= ns[m]
  }

  ghost predicate Clear(base: nat, ns: seq<nat>) {
    forall m :: 0 <= m < |ns| ==> ClearAt(base, ns, m)
  }

  lemma ClearPrefix(base: nat, ns: seq<nat>, m: nat)
    requires m <= |ns| && forall j :: 0 <= j < m ==> ClearAt(base, ns, j)
    ensures Clear(base, ns[..m])
  {
    hide BaseAfter, PartialSlide;
    forall j | 0 <= j < m ensures ClearAt(base, ns[..m], j) {
      assert ClearAt(base, ns, j) && ns[..m][..j] == ns[..j];
    }
  }

  // Every number in seen would be rejected.
  ghost predicate Safe(w: Window, seen: set<nat>)
    requires |w.bits| == WIDTH
  {
    forall n :: n in seen ==> Rejects(w, n)
  }

  ghost predicate SafeAfter(w: Window, ns: seq<nat>)
    requires |w.bits| == WIDTH
  {
    Safe(Run(w, ns).0, AcceptedBy(w, ns))
  }

  // The window's bits are exactly the accepted numbers it covers.
  ghost predicate Faithful(w: Window, seen: set<nat>)
    requires |w.bits| == WIDTH
  {
    && (forall i :: 0 <= i < WIDTH ==> (w.bits[i] <==> w.base + i in seen))
    && (forall n :: n in seen ==> n < w.base + WIDTH)
  }

  // A partial slide that leaves nothing accepted inside keeps the window faithful, and a faithful
  // window answers exactly: it accepts what is not below the base and has not been accepted before.
  lemma FaithfulStep(w: Window, seen: set<nat>, n: nat)
    requires |w.bits| == WIDTH && Faithful(w, seen)
    requires PartialSlide(w.base, n) ==> forall s :: s in seen ==> s + WIDTH <= n
    ensures var (w', v) := Check(w, n);
            && (v.Accept? <==> n >= w.base && n !in seen)
            && Faithful(w', seen + if v.Accept? then {n} else {})
  {
    if n >= w.base + WIDTH {
      assert forall s :: s in seen ==> s < n;
    }
  }

  // A partial slide that leaves an accepted number s inside forgets one. If s is still rejected, the bit
  // that rejects it was that of a smaller accepted number, which is inside as well; and so on down.
  lemma {:induction false} SlideForgets(w: Window, seen: set<nat>, n: nat, s: nat)
    requires |w.bits| == WIDTH && Faithful(w, seen) && PartialSlide(w.base, n)
    requires s in seen && s + WIDTH > n
    ensures exists r :: r in seen && !Rejects(Check(w, n).0, r)
    decreases s
  {
    if Rejects(Check(w, n).0, s) {
      var advance := n - w.base - WIDTH + 1;
      var i := s - w.base - advance;
      assert w.bits[i] <==> w.base + i in seen;
      SlideForgets(w, seen, n, s - advance);
    }
  }

  lemma {:induction false} AcceptedPresented(w: Window, ns: seq<nat>, s: nat)
    requires |w.bits| == WIDTH && s in AcceptedBy(w, ns)
    ensures exists i :: 0 <= i < |ns| && ns[i] == s
  {
    hide Check;
    var k := |ns| - 1;
    if s in AcceptedBy(w, ns[..k]) {
      AcceptedPresented(w, ns[..k], s);
      var i :| 0 <= i < k && ns[..k][i] == s;
      assert ns[i] == s;
    } else {
      assert ns[k] == s;
    }
  }

  // While the numbers are clear, a window that starts empty stays faithful.
  lemma {:induction false} FaithfulRun(w: Window, ns: seq<nat>)
    requires |w.bits| == WIDTH && Faithful(w, {}) && Clear(w.base, ns)
    ensures Faithful(Run(w, ns).0, AcceptedBy(w, ns))
  {
    hide Check, Faithful, PartialSlide;
    if ns == [] {
      assert AcceptedBy(w, ns) == {};
    } else {
      var k := |ns| - 1;
      ClearPrefix(w.base, ns, k);
      FaithfulRun(w, ns[..k]);
      ClearSeen(w, ns, k);
      FaithfulStep(Run(w, ns[..k]).0, AcceptedBy(w, ns[..k]), ns[k]);
    }
  }

  lemma ClearSeen(w: Window, ns: seq<nat>, m: nat)
    requires |w.bits| == WIDTH && m < |ns| && ClearAt(w.base, ns, m)
    ensures PartialSlide(Run(w, ns[..m]).0.base, ns[m]) ==>
              forall s :: s in AcceptedBy(w, ns[..m]) ==> s + WIDTH <= ns[m]
  {
    hide Run, Check, BaseAfter, PartialSlide, AcceptedBy;
    RunBase(w, ns[..m]);
    if PartialSlide(Run(w, ns[..m]).0.base, ns[m]) {
      forall s | s in AcceptedBy(w, ns[..m]) ensures s + WIDTH <= ns[m] {
        AcceptedPresented(w, ns[..m], s);
        var i :| 0 <= i < m && ns[..m][i] == s;
        assert ns[i] == s;
      }
    }
  }

  // What was presented and is not below the base now has been accepted.
  lemma {:induction false} PresentedAccepted(w: Window, ns: seq<nat>, i: nat)
    requires |w.bits| == WIDTH && Faithful(w, {}) && Clear(w.base, ns)
    requires i < |ns| && ns[i] >= Run(w, ns).0.base
    ensures ns[i] in AcceptedBy(w, ns)
    decreases |ns|
  {
    var k := |ns| - 1;
    var before := Run(w, ns[..k]).0;
    BaseMonotone(before, ns[k]);
    hide Check, Faithful, PartialSlide;
    ClearPrefix(w.base, ns, k);
    if i < k {
      PresentedAccepted(w, ns[..k], i);
    } else {
      FaithfulRun(w, ns[..k]);
      ClearSeen(w, ns, k);
      FaithfulStep(before, AcceptedBy(w, ns[..k]), ns[k]);
    }
  }

  // Every number accepted so far would be rejected if presented again, at every point of a run from an
  // empty window, exactly when the numbers are clear.
  lemma ReplaySafeExactly(w: Window, ns: seq<nat>)
    requires |w.bits| == WIDTH && Faithful(w, {})
    ensures (forall m :: 0 <= m <= |ns| ==> SafeAfter(w, ns[..m])) <==> Clear(w.base, ns)
  {
    hide Run, Check, Faithful, Rejects, AcceptedBy, ClearAt;
    if Clear(w.base, ns) {
      forall m | 0 <= m <= |ns| ensures SafeAfter(w, ns[..m]) {
        ClearPrefix(w.base, ns, m);
        FaithfulRun(w, ns[..m]);
        FaithfulExact(Run(w, ns[..m]).0, AcceptedBy(w, ns[..m]));
      }
    }
    if forall m :: 0 <= m <= |ns| ==> SafeAfter(w, ns[..m]) {
      for j := 0 to |ns|
        invariant forall m :: 0 <= m < j ==> ClearAt(w.base, ns, m)
      {
        assert SafeAfter(w, ns[..j + 1]);
        SafeIsClear(w, ns, j);
      }
    }
  }

  // The window rejects what is below the base or was accepted, and nothing else.
  ghost predicate ExactAfter(w: Window, ns: seq<nat>)
    requires |w.bits| == WIDTH
  {
    forall n: nat :: Rejects(Run(w, ns).0, n) <==> n < Run(w, ns).0.base || n in AcceptedBy(w, ns)
  }

  // Under the same condition, and no weaker one, the window also refuses no number without cause.
  lemma AnswersExactly(w: Window, ns: seq<nat>)
    requires |w.bits| == WIDTH && Faithful(w, {})
    ensures (forall m :: 0 <= m <= |ns| ==> ExactAfter(w, ns[..m])) <==> Clear(w.base, ns)
  {
    hide Run, Check, Faithful, Rejects, AcceptedBy, ClearAt;
    if Clear(w.base, ns) {
      forall m | 0 <= m <= |ns| ensures ExactAfter(w, ns[..m]) {
        ClearPrefix(w.base, ns, m);
        FaithfulRun(w, ns[..m]);
        FaithfulExact(Run(w, ns[..m]).0, AcceptedBy(w, ns[..m]));
      }
    }
    if forall m :: 0 <= m <= |ns| ==> ExactAfter(w, ns[..m]) {
      forall m | 0 <= m <= |ns| ensures SafeAfter(w, ns[..m]) {
        assert ExactAfter(w, ns[..m]);
      }
      ReplaySafeExactly(w, ns);
    }
  }

  lemma FaithfulExact(w: Window, seen: set<nat>)
    requires |w.bits| == WIDTH && Faithful(w, seen)
    ensures forall n: nat :: Rejects(w, n) <==> n < w.base || n in seen
  {
    forall n: nat ensures Rejects(w, n) <==> n < w.base || n in seen {
      if w.base <= n < w.base + WIDTH { assert w.bits[n - w.base] <==> w.base + (n - w.base) in seen; }
    }
  }

  lemma SafeIsClear(w: Window, ns: seq<nat>, m: nat)
    requires |w.bits| == WIDTH && Faithful(w, {}) && m < |ns|
    requires forall j :: 0 <= j < m ==> ClearAt(w.base, ns, j)
    requires SafeAfter(w, ns[..m + 1])
    ensures ClearAt(w.base, ns, m)
  {
    hide Run, Check, BaseAfter, Faithful, Rejects, AcceptedBy;
    ClearPrefix(w.base, ns, m);
    FaithfulRun(w, ns[..m]);
    RunBase(w, ns[..m]);
    var before, seen := Run(w, ns[..m]).0, AcceptedBy(w, ns[..m]);
    if i :| 0 <= i < m && ns[i] + WIDTH > ns[m] && PartialSlide(before.base, ns[m]) {
      assert ns[..m][i] == ns[i];
      PresentedAccepted(w, ns[..m], i);
      SlideForgets(before, seen, ns[m], ns[i]);
      var r :| r in seen && !Rejects(Check(before, ns[m]).0, r);
      AcceptedGrows(w, ns, m);
      assert false;
    }
  }

  lemma AcceptedGrows(w: Window, ns: seq<nat>, m: nat)
    requires |w.bits| == WIDTH && m < |ns|
    ensures AcceptedBy(w, ns[..m]) <= AcceptedBy(w, ns[..m + 1])
    ensures Run(w, ns[..m + 1]).0 == Check(Run(w, ns[..m]).0, ns[m]).0
  {
    hide Check;
    assert ns[..m + 1][..m] == ns[..m];
  }

  ghost predicate AcceptedAt(w: Window, ns: seq<nat>, i: nat)
    requires |w.bits| == WIDTH && i < |ns|
  {
    Run(w, ns).1[i].Accept?
  }

  // The verdict on the i-th number is the check in the window left by the numbers before it.
  lemma {:induction false} PrefixVerdict(w: Window, ns: seq<nat>, i: nat)
    requires |w.bits| == WIDTH && i < |ns|
    ensures AcceptedAt(w, ns, i) <==> Check(Run(w, ns[..i]).0, ns[i]).1.Accept?
    decreases |ns|
  {
    hide Check;
    var k := |ns| - 1;
    if i < k {
      PrefixVerdict(w, ns[..k], i);
      assert ns[..k][..i] == ns[..i];
    }
  }

  lemma {:induction false} AcceptedMember(w: Window, ns: seq<nat>, i: nat)
    requires |w.bits| == WIDTH && i < |ns| && AcceptedAt(w, ns, i)
    ensures ns[i] in AcceptedBy(w, ns)
    decreases |ns|
  {
    hide Check;
    var k := |ns| - 1;
    if i < k { AcceptedMember(w, ns[..k], i); }
  }

  lemma PrefixAccepted(w: Window, ns: seq<nat>, i: nat, j: nat)
    requires |w.bits| == WIDTH && i < j <= |ns| && AcceptedAt(w, ns, i)
    ensures AcceptedAt(w, ns[..j], i)
  {
    hide AcceptedAt, Run, Check;
    PrefixVerdict(w, ns, i);
    PrefixVerdict(w, ns[..j], i);
    assert ns[..j][..i] == ns[..i];
  }

  // So a run of clear numbers accepts none of them twice.
  lemma AtMostOnce(w: Window, ns: seq<nat>, i: nat, j: nat)
    requires |w.bits| == WIDTH && Faithful(w, {}) && Clear(w.base, ns)
    requires i < j < |ns| && AcceptedAt(w, ns, i) && AcceptedAt(w, ns, j)
    ensures ns[i] != ns[j]
  {
    assert ClearAt(w.base, ns, j);
    hide *;
    ClearBefore(w.base, ns, j);
    FaithfulRun(w, ns[..j]);
    ClearSeen(w, ns, j);
    FaithfulStep(Run(w, ns[..j]).0, AcceptedBy(w, ns[..j]), ns[j]);
    PrefixVerdict(w, ns, j);
    PrefixAccepted(w, ns, i, j);
    AcceptedMember(w, ns[..j], i);
  }

  lemma ClearBefore(base: nat, ns: seq<nat>, m: nat)
    requires Clear(base, ns) && m <= |ns|
    ensures Clear(base, ns[..m])
  {
    ClearPrefix(base, ns, m);
  }

  // For the window the source starts with.
  lemma FreshSafeExactly(ns: seq<nat>)
    ensures (forall m :: 0 <= m <= |ns| ==> SafeAfter(INITIAL, ns[..m])) <==> Clear(0, ns)
    ensures Clear(0, ns) ==>
              forall i, j :: 0 <= i < j < |ns| && AcceptedAt(INITIAL, ns, i) && AcceptedAt(INITIAL, ns, j)
                ==> ns[i] != ns[j]
  {
    FreshFaithful();
    hide Faithful, Clear, AcceptedAt, SafeAfter;
    ReplaySafeExactly(INITIAL, ns);
    if Clear(0, ns) {
      forall i, j | 0 <= i < j < |ns| && AcceptedAt(INITIAL, ns, i) && AcceptedAt(INITIAL, ns, j)
        ensures ns[i] != ns[j]
      {
        AtMostOnce(INITIAL, ns, i, j);
      }
    }
  }

  lemma FreshFaithful()
    ensures |INITIAL.bits| == WIDTH && INITIAL.base == 0 && Faithful(INITIAL, {})
  {}

  // What a partial slide by a really does: the number j takes over the answer that j - a had, unless that
  // bit was cleared with the lowest a.
  lemma SlideShifts(w: Window, n: nat, j: nat)
    requires |w.bits| == WIDTH && PartialSlide(w.base, n) && j != n
    requires Check(w, n).0.base <= j < Check(w, n).0.base + WIDTH
    ensures var a := n - w.base - WIDTH + 1;
            && Check(w, n).0.base == w.base + a
            && (Rejects(Check(w, n).0, j) <==> j - a >= w.base + a && Rejects(w, j - a))
  {}

  // ---- stale bits also refuse numbers that were never seen

  function UpTo(m: nat): (ns: seq<nat>)
    ensures |ns| == m && forall i :: 0 <= i < m ==> ns[i] == i
  {
    seq(m, i => i)
  }

  // The window after 0, 1, ..., m - 1.
  ghost predicate AfterCount(w: Window, m: nat)
    requires |w.bits| == WIDTH
  {
    if m <= WIDTH then w.base == 0 && forall i :: 0 <= i < WIDTH ==> (w.bits[i] <==> i < m)
    else w.base == m - WIDTH && forall i :: 0 < i < WIDTH ==> w.bits[i]
  }

  lemma CountStep(w: Window, m: nat)
    requires |w.bits| == WIDTH && AfterCount(w, m)
    ensures AfterCount(Check(w, m).0, m + 1)
    ensures Check(w, m).1 == if m < WIDTH then Accept else Duplicate
  {}

  // Presented in order, only the first 256 numbers are accepted; all others are called duplicates.
  lemma {:induction false} InOrderStops(m: nat)
    ensures AfterCount(Run(INITIAL, UpTo(m)).0, m)
    ensures forall i :: 0 <= i < m ==> Run(INITIAL, UpTo(m)).1[i] == if i < WIDTH then Accept else Duplicate
  {
    if m > 0 {
      InOrderStops(m - 1);
      hide Check, AfterCount;
      assert UpTo(m)[..m - 1] == UpTo(m - 1);
      CountStep(Run(INITIAL, UpTo(m - 1)).0, m - 1);
    }
  }
}
