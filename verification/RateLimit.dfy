// The token-bucket limiter of src/transport/rgtp_ratelimit.c: a 256-slot table with linear probing.
// Token counts are exact rationals instead of doubles.
module RateLimit {
  import opened Bits

  const SLOTS := 256
  const MAX_TOKENS := 1000.0
  const CLOCK_END := 0xffff_ffff_ffff_ffff

  datatype Key = Key(exposureId: seq<Byte>, sourceIp: nat)

  datatype Entry = Entry(key: Key, tokens: real, lastRefill: nat) {
    // A slot is empty exactly when its refill time is zero.
    predicate Used() { lastRefill != 0 }
    function Held(): Bucket { Bucket(tokens, lastRefill) }
  }

  datatype Bucket = Bucket(tokens: real, lastRefill: nat)

  // ---- hash_key: FNV-1a over the exposure id and the four address bytes, low byte first

  function Fnv(bytes: seq<Byte>, h: nat): nat {
    if bytes == [] then h else Fnv(bytes[1..], Xor(h, bytes[0]) * 16777619 % U32_END)
  }

  function AddressBytes(ip: nat): seq<Byte> {
    [ip % 256, ip / 0x100 % 256, ip / 0x1_0000 % 256, ip / 0x100_0000 % 256]
  }

  function Hash(k: Key): (slot: nat)
    ensures slot < SLOTS
  {
    Fnv(k.exposureId + AddressBytes(k.sourceIp), 2166136261) % SLOTS
  }

  // ---- the table as a map

  function At(slot: nat, i: nat): (idx: nat)
    ensures idx < SLOTS
  {
    (slot + i) % SLOTS
  }

  // How many probes after the hash slot position j is reached.
  function Offset(slot: nat, j: nat): (i: nat)
    requires slot < SLOTS && j < SLOTS
    ensures i < SLOTS && At(slot, i) == j
  {
    if j >= slot then j - slot else j + SLOTS - slot
  }

  lemma AtOffset(slot: nat, i: nat)
    requires slot < SLOTS && i < SLOTS
    ensures Offset(slot, At(slot, i)) == i
  {}

  ghost predicate WellFormed(es: seq<Entry>) {
    && |es| == SLOTS
    // each key at most once
    && (forall i, j :: 0 <= i < j < SLOTS && es[i].Used() && es[j].Used() ==> es[i].key != es[j].key)
    // no empty slot between a key's hash slot and its position
    && (forall j, i :: 0 <= j < SLOTS && es[j].Used() && 0 <= i < Offset(Hash(es[j].key), j)
          ==> es[At(Hash(es[j].key), i)].Used())
    && (forall j :: 0 <= j < SLOTS ==> 0.0 <= es[j].tokens && es[j].lastRefill < CLOCK_END)
  }

  // m holds exactly the buckets of the used slots.
  ghost predicate Represents(es: seq<Entry>, m: map<Key, Bucket>) {
    && (forall i :: 0 <= i < |es| && es[i].Used() ==> es[i].key in m && m[es[i].key] == es[i].Held())
    && (forall k :: k in m ==> exists i :: 0 <= i < |es| && es[i].Used() && es[i].key == k)
  }

  ghost predicate AllUsed(es: seq<Entry>) {
    forall i :: 0 <= i < |es| ==> es[i].Used()
  }

  // ---- counting the keys

  ghost function KeysOf(es: seq<Entry>): set<Key> {
    if es == [] then {}
    else KeysOf(es[..|es| - 1]) + if es[|es| - 1].Used() then {es[|es| - 1].key} else {}
  }

  lemma {:induction false} KeysOfMembers(es: seq<Entry>, k: Key)
    ensures k in KeysOf(es) <==> exists i :: 0 <= i < |es| && es[i].Used() && es[i].key == k
  {
    if es != [] {
      var n := |es| - 1;
      var init := es[..n];
      KeysOfMembers(init, k);
      if k in KeysOf(init) {
        var i :| 0 <= i < |init| && init[i].Used() && init[i].key == k;
        assert es[i] == init[i];
      }
      if i :| 0 <= i < |es| && es[i].Used() && es[i].key == k {
        if i < n { assert init[i] == es[i]; }
      }
    }
  }

  lemma {:induction false} KeysOfSize(es: seq<Entry>)
    requires forall i, j :: 0 <= i < j < |es| && es[i].Used() && es[j].Used() ==> es[i].key != es[j].key
    ensures |KeysOf(es)| <= |es|
    ensures |KeysOf(es)| == |es| <==> AllUsed(es)
  {
    if es != [] {
      var n := |es| - 1;
      var init := es[..n];
      KeysOfSize(init);
      KeysOfMembers(init, es[n].key);
      assert AllUsed(es) <==> AllUsed(init) && es[n].Used() by {
        if AllUsed(es) { forall i | 0 <= i < n ensures init[i].Used() { assert es[i].Used(); } }
        if AllUsed(init) && es[n].Used() {
          forall i | 0 <= i < |es| ensures es[i].Used() { if i < n { assert init[i].Used(); } }
        }
      }
    }
  }

  // The map is full exactly when every slot is used.
  lemma FullMap(es: seq<Entry>, m: map<Key, Bucket>)
    requires WellFormed(es) && Represents(es, m)
    ensures |m| <= SLOTS
    ensures |m| == SLOTS <==> AllUsed(es)
  {
    KeysOfSize(es);
    forall k ensures k in m.Keys <==> k in KeysOf(es) { KeysOfMembers(es, k); }
    assert m.Keys == KeysOf(es);
  }

  // ---- what one check does to the map

  function Refill(b: Bucket, now: nat): Bucket {
    if now > b.lastRefill then
      var t := b.tokens + (now - b.lastRefill) as real / 1000.0;
      Bucket(if t > MAX_TOKENS then MAX_TOKENS else t, now)
    else b
  }

  const FRESH_TOKENS := MAX_TOKENS - 1.0

  ghost predicate Oldest(m: map<Key, Bucket>, v: Key) {
    v in m && forall k :: k in m ==> m[v].lastRefill <= m[k].lastRefill
  }

  // Lookup, insert, or, only with all 256 slots in use, replacement of a least recently refilled bucket.
  ghost predicate CheckStep(m: map<Key, Bucket>, m': map<Key, Bucket>, k: Key, now: nat, ok: bool) {
    if k in m then
      var b := Refill(m[k], now);
      && (ok <==> b.tokens >= 1.0)
      && m' == m[k := if ok then Bucket(b.tokens - 1.0, b.lastRefill) else b]
    else
      && ok
      && if |m| < SLOTS then m' == m[k := Bucket(FRESH_TOKENS, now)]
         else exists v :: Oldest(m, v) && m' == (m - {v})[k := Bucket(FRESH_TOKENS, now)]
  }

  // ---- the code

  datatype Outcome = Found(idx: nat) | Empty(idx: nat) | Full(oldest: nat)

  class Limiter {
    const entries: array<Entry>
    ghost var buckets: map<Key, Bucket>

    ghost predicate Valid()
      reads this, entries
    {
      entries.Length == SLOTS && WellFormed(entries[..]) && Represents(entries[..], buckets)
    }

    // rgtp_ratelimit_init
    constructor ()
      ensures Valid() && fresh(entries) && buckets == map[]
    {
      entries := new Entry[SLOTS](_ => Entry(Key([], 0), 0.0, 0));
      buckets := map[];
    }

    // Lines 57-92: probe from the hash slot for the key, an empty slot, or else the oldest entry.
    method Probe(k: Key) returns (o: Outcome)
      requires Valid()
      ensures match o
        case Found(j) => j < SLOTS && entries[j].Used() && entries[j].key == k
        case Empty(j) =>
          && j < SLOTS && !entries[j].Used() && k !in buckets
          && (forall i :: 0 <= i < Offset(Hash(k), j) ==> entries[At(Hash(k), i)].Used())
        case Full(j) =>
          && j < SLOTS && k !in buckets && AllUsed(entries[..])
          && (forall i :: 0 <= i < SLOTS ==> entries[j].lastRefill <= entries[i].lastRefill)
    {
      hide Hash;
      var slot := Hash(k);
      var oldest: int := -1;
      var oldestTime := CLOCK_END;
      for i := 0 to SLOTS
        invariant forall p :: 0 <= p < i ==> entries[At(slot, p)].Used() && entries[At(slot, p)].key != k
        invariant forall p :: 0 <= p < i ==> oldestTime <= entries[At(slot, p)].lastRefill
        invariant i == 0 ==> oldest == -1 && oldestTime == CLOCK_END
        invariant i > 0 ==> 0 <= oldest < SLOTS && entries[oldest].lastRefill == oldestTime
      {
        var idx := At(slot, i);
        AtOffset(slot, i);
        if !entries[idx].Used() {
          Absent(entries[..], buckets, k, i);
          return Empty(idx);
        }
        if entries[idx].key == k {
          return Found(idx);
        }
        if entries[idx].lastRefill < oldestTime {
          oldestTime := entries[idx].lastRefill;
          oldest := idx;
        }
      }
      Absent(entries[..], buckets, k, SLOTS);
      forall j | 0 <= j < SLOTS ensures entries[j].Used() && oldestTime <= entries[j].lastRefill {
        assert At(slot, Offset(slot, j)) == j;
      }
      return Full(oldest);
    }

    // rgtp_ratelimit_check
    method Check(k: Key, now: nat) returns (ok: bool)
      requires Valid() && 0 < now < CLOCK_END
      modifies this, entries
      ensures Valid()
      ensures CheckStep(old(buckets), buckets, k, now, ok)
    {
      hide WellFormed, Represents, Hash, AllUsed;
      var o := Probe(k);
      ghost var es, m := entries[..], buckets;
      FullMap(es, m);
      match o {
        case Empty(j) =>
          NotAllUsed(es, j);
          InsertKeeps(es, m, k, j, now);
          entries[j] := Entry(k, FRESH_TOKENS, now);
          buckets := m[k := Bucket(FRESH_TOKENS, now)];
          assert entries[..] == es[j := Entry(k, FRESH_TOKENS, now)];
          return true;
        case Full(j) =>
          OldestEntry(es, m, j);
          ReplaceKeeps(es, m, k, j, now);
          ghost var v := entries[j].key;
          entries[j] := Entry(k, FRESH_TOKENS, now);
          buckets := (m - {v})[k := Bucket(FRESH_TOKENS, now)];
          assert entries[..] == es[j := Entry(k, FRESH_TOKENS, now)];
          return true;
        case Found(j) =>
          FoundBucket(es, m, j);
          var e := entries[j];
          var tokens, last := e.tokens, e.lastRefill;
          if now > last {
            tokens := tokens + (now - last) as real / 1000.0;
            if tokens > MAX_TOKENS {
              tokens := MAX_TOKENS;
            }
            last := now;
          }
          ok := tokens >= 1.0;
          if ok {
            tokens := tokens - 1.0;
          }
          UpdateKeeps(es, m, j, tokens, last);
          entries[j] := Entry(e.key, tokens, last);
          buckets := m[k := Bucket(tokens, last)];
          assert entries[..] == es[j := Entry(e.key, tokens, last)];
      }
    }
  }

  // A key not met in the first n probes, with the table full or the next slot empty, is in no slot.
  lemma Absent(es: seq<Entry>, m: map<Key, Bucket>, k: Key, n: nat)
    requires WellFormed(es) && Represents(es, m) && n <= SLOTS
    requires forall p :: 0 <= p < n ==> es[At(Hash(k), p)].key != k
    requires n < SLOTS ==> !es[At(Hash(k), n)].Used()
    ensures k !in m
  {
    hide Hash;
    if k in m {
      var j :| 0 <= j < |es| && es[j].Used() && es[j].key == k;
      var i := Offset(Hash(k), j);
    }
  }

  lemma NotAllUsed(es: seq<Entry>, j: nat)
    requires j < |es| && !es[j].Used()
    ensures !AllUsed(es)
  {}

  lemma FoundBucket(es: seq<Entry>, m: map<Key, Bucket>, j: nat)
    requires WellFormed(es) && Represents(es, m) && j < SLOTS && es[j].Used()
    ensures es[j].key in m && m[es[j].key] == es[j].Held() && 0.0 <= es[j].tokens && es[j].lastRefill < CLOCK_END
  {}

  lemma OldestEntry(es: seq<Entry>, m: map<Key, Bucket>, j: nat)
    requires WellFormed(es) && Represents(es, m) && j < SLOTS && AllUsed(es)
    requires forall i :: 0 <= i < SLOTS ==> es[j].lastRefill <= es[i].lastRefill
    ensures Oldest(m, es[j].key)
  {
    forall k | k in m ensures m[es[j].key].lastRefill <= m[k].lastRefill {
      var i :| 0 <= i < |es| && es[i].Used() && es[i].key == k;
    }
  }

  // Writing entry e into slot j of the table replaces whatever bucket the slot held.
  lemma PutRepresents(es: seq<Entry>, m: map<Key, Bucket>, j: nat, e: Entry, base: map<Key, Bucket>)
    requires WellFormed(es) && Represents(es, m) && j < SLOTS && e.Used()
    requires base == if es[j].Used() then m - {es[j].key} else m
    requires e.key !in base
    ensures Represents(es[j := e], base[e.key := e.Held()])
  {
    hide Hash, At, Offset;
    var es', m' := es[j := e], base[e.key := e.Held()];
    assert es'[j] == e;
    forall x | x in m' ensures exists i :: 0 <= i < |es'| && es'[i].Used() && es'[i].key == x {
      if x != e.key {
        var i :| 0 <= i < |es| && es[i].Used() && es[i].key == x;
        assert es'[i] == es[i];
      }
    }
  }

  lemma PutWellFormed(es: seq<Entry>, j: nat, e: Entry)
    requires WellFormed(es) && j < SLOTS && e.Used() && 0.0 <= e.tokens && e.lastRefill < CLOCK_END
    requires forall i :: 0 <= i < SLOTS && i != j && es[i].Used() ==> es[i].key != e.key
    requires forall i :: 0 <= i < Offset(Hash(e.key), j) ==> es[At(Hash(e.key), i)].Used()
    ensures WellFormed(es[j := e])
  {
    hide Hash, At, Offset;
    var es' := es[j := e];
    assert forall i :: 0 <= i < SLOTS ==> es'[i] == if i == j then e else es[i];
  }

  lemma InsertKeeps(es: seq<Entry>, m: map<Key, Bucket>, k: Key, j: nat, now: nat)
    requires WellFormed(es) && Represents(es, m) && j < SLOTS && !es[j].Used() && k !in m
    requires forall i :: 0 <= i < Offset(Hash(k), j) ==> es[At(Hash(k), i)].Used()
    requires 0 < now < CLOCK_END
    ensures WellFormed(es[j := Entry(k, FRESH_TOKENS, now)])
    ensures Represents(es[j := Entry(k, FRESH_TOKENS, now)], m[k := Bucket(FRESH_TOKENS, now)])
  {
    var e := Entry(k, FRESH_TOKENS, now);
    PutRepresents(es, m, j, e, m);
    PutWellFormed(es, j, e);
  }

  lemma ReplaceKeeps(es: seq<Entry>, m: map<Key, Bucket>, k: Key, j: nat, now: nat)
    requires WellFormed(es) && Represents(es, m) && j < SLOTS && AllUsed(es) && k !in m
    requires 0 < now < CLOCK_END
    ensures WellFormed(es[j := Entry(k, FRESH_TOKENS, now)])
    ensures Represents(es[j := Entry(k, FRESH_TOKENS, now)], (m - {es[j].key})[k := Bucket(FRESH_TOKENS, now)])
  {
    hide WellFormed, Hash, At;
    var e := Entry(k, FRESH_TOKENS, now);
    WellFormedSize(es);
    PutRepresents(es, m, j, e, m - {es[j].key});
    PutWellFormed(es, j, e);
  }

  lemma WellFormedSize(es: seq<Entry>)
    requires WellFormed(es)
    ensures |es| == SLOTS
  {}

  lemma UpdateKeeps(es: seq<Entry>, m: map<Key, Bucket>, j: nat, tokens: real, last: nat)
    requires WellFormed(es) && Represents(es, m) && j < SLOTS && es[j].Used()
    requires 0.0 <= tokens && 0 < last < CLOCK_END
    ensures WellFormed(es[j := Entry(es[j].key, tokens, last)])
    ensures Represents(es[j := Entry(es[j].key, tokens, last)], m[es[j].key := Bucket(tokens, last)])
  {
    var e := Entry(es[j].key, tokens, last);
    PutRepresents(es, m, j, e, m - {es[j].key});
    assert (m - {es[j].key})[es[j].key := Bucket(tokens, last)] == m[es[j].key := Bucket(tokens, last)];
    PutWellFormed(es, j, e);
  }

  // ---- runs of checks

  datatype Event = Event(key: Key, now: nat, ok: bool)

  // states[i + 1] follows states[i] by the check events[i]; the clock never runs back.
  ghost predicate IsRun(states: seq<map<Key, Bucket>>, events: seq<Event>) {
    && |states| == |events| + 1
    && (forall i :: 0 <= i < |events| ==>
          CheckStep(states[i], states[i + 1], events[i].key, events[i].now, events[i].ok))
    && (forall i, j :: 0 <= i < j < |events| ==> events[i].now <= events[j].now)
    && (forall k :: k in states[0] ==> 0.0 <= states[0][k].tokens <= MAX_TOKENS)
    && (forall k, i :: k in states[0] && 0 <= i < |events| ==> states[0][k].lastRefill <= events[i].now)
  }

  function Accepted(events: seq<Event>, k: Key): nat {
    if events == [] then 0
    else
      var e := events[|events| - 1];
      Accepted(events[..|events| - 1], k) + if e.key == k && e.ok then 1 else 0
  }

  // Token counts stay between 0 and 1000 and no bucket is newer than the clock.
  lemma {:induction false} RunBounds(states: seq<map<Key, Bucket>>, events: seq<Event>, n: nat, k: Key)
    requires IsRun(states, events) && n <= |events| && k in states[n]
    ensures 0.0 <= states[n][k].tokens <= MAX_TOKENS
    ensures forall i :: 0 <= n - 1 <= i < |events| ==> states[n][k].lastRefill <= events[i].now
    ensures forall i :: n <= i < |events| ==> states[n][k].lastRefill <= events[i].now
  {
    if n > 0 {
      var e := events[n - 1];
      assert CheckStep(states[n - 1], states[n], e.key, e.now, e.ok);
      if k in states[n - 1] { RunBounds(states, events, n - 1, k); }
    }
  }

  // Tokens earned in the given number of microseconds.
  function Earned(us: int): real { us as real / 1000.0 }

  lemma EarnedAdd(a: int, b: int)
    ensures Earned(a + b) == Earned(a) + Earned(b)
  {}

  // One check spends at most what it earns.
  lemma StepConserves(m: map<Key, Bucket>, m': map<Key, Bucket>, e: Event, k: Key)
    requires CheckStep(m, m', e.key, e.now, e.ok) && k in m && k in m'
    ensures m[k].lastRefill <= m'[k].lastRefill
    ensures (if e.key == k && e.ok then 1.0 else 0.0) + m'[k].tokens
            <= m[k].tokens + Earned(m'[k].lastRefill - m[k].lastRefill)
  {}

  // Conservation: while a key stays in the table, tokens spent plus tokens left never exceed the
  // tokens it had plus one per 1000 microseconds of refill time.
  lemma {:induction false} Conservation(states: seq<map<Key, Bucket>>, events: seq<Event>, a: nat, b: nat, k: Key)
    requires IsRun(states, events) && a <= b <= |events|
    requires forall i :: a <= i <= b ==> k in states[i]
    ensures states[a][k].lastRefill <= states[b][k].lastRefill
    ensures Accepted(events[a..b], k) as real + states[b][k].tokens <=
            states[a][k].tokens + Earned(states[b][k].lastRefill - states[a][k].lastRefill)
  {
    hide CheckStep, Earned;
    if a == b {
      EarnedAdd(0, 0);
    } else {
      Conservation(states, events, a, b - 1, k);
      StepConserves(states[b - 1], states[b], events[b - 1], k);
      AcceptedLast(events, a, b, k);
      EarnedAdd(states[b - 1][k].lastRefill - states[a][k].lastRefill,
                states[b][k].lastRefill - states[b - 1][k].lastRefill);
    }
  }

  lemma AcceptedLast(events: seq<Event>, a: nat, b: nat, k: Key)
    requires a < b <= |events|
    ensures Accepted(events[a..b], k) ==
            Accepted(events[a..b - 1], k) + if events[b - 1].key == k && events[b - 1].ok then 1 else 0
  {
    assert events[a..b][..b - 1 - a] == events[a..b - 1];
  }

  // ---- a refusal is earned

  // A key is checked: the time in its bucket becomes the time of the check, and the request passes
  // exactly when the tokens held and earned since make up one.
  lemma ResidentCheck(states: seq<map<Key, Bucket>>, events: seq<Event>, i: nat, k: Key)
    requires IsRun(states, events) && i < |events| && events[i].key == k && k in states[i]
    ensures k in states[i + 1] && states[i + 1][k].lastRefill == events[i].now >= states[i][k].lastRefill
    ensures events[i].ok <==>
            states[i][k].tokens + (events[i].now - states[i][k].lastRefill) as real / 1000.0 >= 1.0
  {
    RunBounds(states, events, i, k);
    assert CheckStep(states[i], states[i + 1], events[i].key, events[i].now, events[i].ok);
  }

  // Tokens a check would earn beyond the cap of 1000.
  ghost function Overflow(m: map<Key, Bucket>, e: Event, k: Key): real {
    if e.key == k && k in m && e.now > m[k].lastRefill then
      var t := m[k].tokens + (e.now - m[k].lastRefill) as real / 1000.0;
      if t > 1000.0 then t - 1000.0 else 0.0
    else 0.0
  }

  ghost function Overflowed(states: seq<map<Key, Bucket>>, events: seq<Event>, k: Key, a: nat, b: nat): real
    requires a <= b <= |events| < |states|
    decreases b
  {
    if a == b then 0.0
    else Overflowed(states, events, k, a, b - 1) + Overflow(states[b - 1], events[b - 1], k)
  }

  lemma StepBalances(m: map<Key, Bucket>, m': map<Key, Bucket>, e: Event, k: Key)
    requires CheckStep(m, m', e.key, e.now, e.ok) && k in m && k in m'
    requires 0.0 <= m[k].tokens <= MAX_TOKENS && (e.key == k ==> m[k].lastRefill <= e.now)
    ensures (if e.key == k && e.ok then 1.0 else 0.0) + m'[k].tokens + Overflow(m, e, k)
            == m[k].tokens + Earned(m'[k].lastRefill - m[k].lastRefill)
    ensures m'[k].tokens >= m[k].tokens - if e.key == k && e.ok then 1.0 else 0.0
  {}

  // The account balances exactly while a key stays in the table: tokens held and earned are spent, left,
  // or lost to the cap.
  lemma {:induction false} Balance(states: seq<map<Key, Bucket>>, events: seq<Event>, a: nat, b: nat, k: Key)
    requires IsRun(states, events) && a <= b <= |events|
    requires forall i :: a <= i <= b ==> k in states[i]
    ensures Accepted(events[a..b], k) as real + states[b][k].tokens + Overflowed(states, events, k, a, b)
            == states[a][k].tokens + Earned(states[b][k].lastRefill - states[a][k].lastRefill)
    ensures Accepted(events[a..b], k) as real + states[b][k].tokens >= states[a][k].tokens
    decreases b
  {
    hide IsRun, CheckStep, Earned, Accepted, Overflow;
    RunSize(states, events);
    if a == b {
      AcceptedNone(k);
      EarnedAdd(0, 0);
      assert events[a..b] == [];
    } else {
      Balance(states, events, a, b - 1, k);
      RunStep(states, events, b - 1, k);
      RefillBefore(states, events, b - 1, k);
      StepBalances(states[b - 1], states[b], events[b - 1], k);
      AcceptedLast(events, a, b, k);
      EarnedAdd(states[b - 1][k].lastRefill - states[a][k].lastRefill,
                states[b][k].lastRefill - states[b - 1][k].lastRefill);
    }
  }

  lemma RefillBefore(states: seq<map<Key, Bucket>>, events: seq<Event>, i: nat, k: Key)
    requires IsRun(states, events) && i < |events| && k in states[i]
    ensures states[i][k].lastRefill <= events[i].now
  {
    RunBounds(states, events, i, k);
  }

  // A key that was inserted at a and stayed is refused only after a thousand of its requests passed.
  lemma RefusalEarned(states: seq<map<Key, Bucket>>, events: seq<Event>, a: nat, b: nat, k: Key)
    requires IsRun(states, events) && a < b < |events|
    requires events[a].key == k && k !in states[a] && forall i :: a < i <= b ==> k in states[i]
    requires events[b].key == k && !events[b].ok
    ensures Accepted(events[a..b], k) >= 1000
  {
    RunSize(states, events);
    assert CheckStep(states[a], states[a + 1], events[a].key, events[a].now, events[a].ok);
    assert states[a + 1][k].tokens == 999.0 && events[a].ok;
    hide CheckStep, Accepted, IsRun;
    ResidentCheck(states, events, b, k);
    Balance(states, events, a + 1, b, k);
    AcceptedFirst(events, a, b, k);
  }

  lemma AcceptedFirst(events: seq<Event>, a: nat, b: nat, k: Key)
    requires a < b <= |events|
    ensures Accepted(events[a..b], k) ==
            (if events[a].key == k && events[a].ok then 1 else 0) + Accepted(events[a + 1..b], k)
  {
    assert events[a..b] == [events[a]] + events[a + 1..b];
    AcceptedConcat([events[a]], events[a + 1..b], k);
    assert [events[a]][..0] == [] && Accepted([], k) == 0;
  }

  lemma {:induction false} AcceptedConcat(x: seq<Event>, y: seq<Event>, k: Key)
    ensures Accepted(x + y, k) == Accepted(x, k) + Accepted(y, k)
  {
    if y == [] {
      assert x + y == x;
    } else {
      var n := |y| - 1;
      AcceptedConcat(x, y[..n], k);
      assert (x + y)[..|x + y| - 1] == x + y[..n];
    }
  }

  // A key leaves the table only for a new one, only when all 256 slots are taken, and only if none was
  // refilled before it; the newcomer is accepted.
  lemma EvictsOldest(m: map<Key, Bucket>, m': map<Key, Bucket>, e: Event, v: Key)
    requires CheckStep(m, m', e.key, e.now, e.ok) && v in m && v !in m'
    ensures |m| >= 256 && e.key !in m && e.ok
    ensures forall u :: u in m ==> m[v].lastRefill <= m[u].lastRefill
    ensures forall u :: u in m && u != v ==> u in m' && m'[u] == m[u]
    ensures m'.Keys == m.Keys - {v} + {e.key}
  {
    if e.key !in m && |m| >= SLOTS {
      var w :| Oldest(m, w) && m' == (m - {w})[e.key := Bucket(FRESH_TOKENS, e.now)];
      assert w == v;
    }
  }

  // ---- how often a key is accepted in any window of a run

  // The tokens key k would have at the given time.
  ghost function Available(m: map<Key, Bucket>, k: Key, now: nat): real {
    if k in m then Refill(m[k], now).tokens else 0.0
  }

  lemma AvailableGrows(m: map<Key, Bucket>, k: Key, t: nat, u: nat)
    requires t <= u && (k in m ==> 0.0 <= m[k].tokens <= MAX_TOKENS)
    ensures 0.0 <= Available(m, k, t) <= MAX_TOKENS
    ensures Available(m, k, u) <= Available(m, k, t) + Earned(u - t)
  {}

  predicate Inserts(m: map<Key, Bucket>, e: Event, k: Key) { e.key == k && k !in m }

  // One check pays for its acceptance with a token, unless it inserts the key, which grants 1000.
  lemma StepSpends(m: map<Key, Bucket>, m': map<Key, Bucket>, e: Event, k: Key)
    requires CheckStep(m, m', e.key, e.now, e.ok)
    requires k in m ==> 0.0 <= m[k].tokens <= MAX_TOKENS
    ensures (if e.key == k && e.ok then 1.0 else 0.0) + Available(m', k, e.now)
            <= Available(m, k, e.now) + if Inserts(m, e, k) then MAX_TOKENS else 0.0
  {}

  // How often the checks a..b insert the key k.
  function Insertions(states: seq<map<Key, Bucket>>, events: seq<Event>, k: Key, a: nat, b: nat): nat
    requires a <= b <= |events| < |states|
    decreases b
  {
    if a == b then 0
    else Insertions(states, events, k, a, b - 1) + if Inserts(states[b - 1], events[b - 1], k) then 1 else 0
  }

  function Granted(insertions: nat): real { MAX_TOKENS * insertions as real }

  lemma GrantedOne(n: nat)
    ensures Granted(n + 1) == Granted(n) + MAX_TOKENS && Granted(0) == 0.0
  {}

  // The facts of a run that one more check needs.
  lemma RunStep(states: seq<map<Key, Bucket>>, events: seq<Event>, i: nat, k: Key)
    requires IsRun(states, events) && i < |events|
    ensures CheckStep(states[i], states[i + 1], events[i].key, events[i].now, events[i].ok)
    ensures k in states[i] ==> 0.0 <= states[i][k].tokens <= MAX_TOKENS
    ensures i > 0 ==> events[i - 1].now <= events[i].now
  {
    if k in states[i] { RunBounds(states, events, i, k); }
  }

  lemma RunSize(states: seq<map<Key, Bucket>>, events: seq<Event>)
    requires IsRun(states, events)
    ensures |states| == |events| + 1
  {}

  lemma {:induction false} SpentInWindow(states: seq<map<Key, Bucket>>, events: seq<Event>, a: nat, b: nat, k: Key)
    requires IsRun(states, events) && a < b <= |events|
    ensures Accepted(events[a..b], k) as real + Available(states[b], k, events[b - 1].now)
            <= Available(states[a], k, events[a].now) + Granted(Insertions(states, events, k, a, b))
               + Earned(events[b - 1].now - events[a].now)
    decreases b
  {
    hide IsRun, Available, CheckStep, Earned, Accepted, Granted, Inserts;
    RunSize(states, events);
    var e := events[b - 1];
    RunStep(states, events, b - 1, k);
    StepSpends(states[b - 1], states[b], e, k);
    AcceptedLast(events, a, b, k);
    GrantedOne(Insertions(states, events, k, a, b - 1));
    if a == b - 1 {
      AcceptedNone(k);
      EarnedAdd(0, 0);
      assert events[a..b - 1] == [];
    } else {
      SpentInWindow(states, events, a, b - 1, k);
      AvailableGrows(states[b - 1], k, events[b - 2].now, e.now);
      EarnedAdd(events[b - 2].now - events[a].now, e.now - events[b - 2].now);
    }
  }

  lemma AcceptedNone(k: Key)
    ensures Accepted([], k) == 0
  {}

  // The bound over any window of any run: 1000 acceptances for each time the key enters the table, 1000
  // more if it is there when the window opens, and one per 1000 microseconds.
  lemma TokenBound(states: seq<map<Key, Bucket>>, events: seq<Event>, a: nat, b: nat, k: Key)
    requires IsRun(states, events) && a < b <= |events|
    ensures Accepted(events[a..b], k) as real <=
            1000.0 * (Insertions(states, events, k, a, b) + if k in states[a] then 1 else 0) as real
            + (events[b - 1].now - events[a].now) as real / 1000.0
  {
    hide IsRun, CheckStep, Accepted, Refill;
    RunSize(states, events);
    SpentInWindow(states, events, a, b, k);
    RunStep(states, events, a, k);
    AvailableGrows(states[a], k, events[a].now, events[a].now);
    if k in states[b] { RunBounds(states, events, b, k); }
    AvailableGrows(states[b], k, events[b - 1].now, events[b - 1].now);
  }

  // While the key stays in the table, any window lets through at most 1000 + elapsed / 1000 requests,
  // wherever it opens.
  lemma ResidentBound(states: seq<map<Key, Bucket>>, events: seq<Event>, a: nat, b: nat, k: Key)
    requires IsRun(states, events) && a < b <= |events|
    requires forall i :: a < i <= b ==> k in states[i]
    ensures Accepted(events[a..b], k) as real <= 1000.0 + (events[b - 1].now - events[a].now) as real / 1000.0
  {
    hide Accepted, CheckStep;
    TokenBound(states, events, a, b, k);
    ResidentInsertions(states, events, a, b, k);
  }

  lemma {:induction false} ResidentInsertions(states: seq<map<Key, Bucket>>, events: seq<Event>, a: nat, b: nat, k: Key)
    requires a < b <= |events| < |states| && forall i :: a < i <= b ==> k in states[i]
    ensures Insertions(states, events, k, a, b) <= if k in states[a] then 0 else 1
    decreases b
  {
    if a < b - 1 { ResidentInsertions(states, events, a, b - 1, k); }
  }

  // A source whose requests are at least 1000 microseconds apart is never refused, whatever the
  // other sources do and whether or not its bucket is evicted in between.
  lemma SpacedNeverLimited(states: seq<map<Key, Bucket>>, events: seq<Event>, k: Key, n: nat)
    requires IsRun(states, events) && k !in states[0] && n < |events| && events[n].key == k
    requires forall i, j :: 0 <= i < j < |events| && events[i].key == k && events[j].key == k
               ==> events[i].now + 1000 <= events[j].now
    ensures events[n].ok
  {
    assert CheckStep(states[n], states[n + 1], events[n].key, events[n].now, events[n].ok);
    if k in states[n] {
      var i := LastRefillEvent(states, events, k, n);
      RunBounds(states, events, n, k);
    }
  }

  // The refill time in a bucket is the time of an earlier check of that key.
  lemma {:induction false} LastRefillEvent(states: seq<map<Key, Bucket>>, events: seq<Event>, k: Key, n: nat)
    returns (i: nat)
    requires IsRun(states, events) && k !in states[0] && n <= |events| && k in states[n]
    ensures i < n && events[i].key == k && states[n][k].lastRefill == events[i].now
  {
    assert n > 0;
    var e := events[n - 1];
    assert CheckStep(states[n - 1], states[n], e.key, e.now, e.ok);
    if e.key == k {
      i := n - 1;
      if k in states[n - 1] { RunBounds(states, events, n - 1, k); }
    } else {
      i := LastRefillEvent(states, events, k, n - 1);
    }
  }
}
