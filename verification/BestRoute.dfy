/** The best-route strategy with exponential suppression of retransmissions: which next hop each
    Interest goes to, and when. Times are in microseconds. */
module BestRoute {
  import opened Options
  import opened Forwarders

  // ----- the pieces of the decision -----

  /** What the strategy needs of a FIB entry and of the Interest's arrival: the next hops by
      cost, the downstream, and the faces forwarding to which would violate scope. */
  datatype Ask = Ask(nexthops: seq<nat>, inFace: nat, blocked: set<nat>)

  /** predicate_NextHop_eligible without its last part. */
  predicate Allowed(a: Ask, face: nat) {
    face != a.inFace && face !in a.blocked
  }

  function Eligible(a: Ask, hops: seq<nat>): (es: seq<nat>)
    ensures forall f: nat :: f in es <==> f in hops && Allowed(a, f)
  {
    if hops == [] then []
    else
      assert forall f: nat :: f in hops <==> f == hops[0] || f in hops[1..];
      (if Allowed(a, hops[0]) then [hops[0]] else []) + Eligible(a, hops[1..])
  }

  /** The out-record of a face. */
  function RecordOf(rs: seq<FaceRecord>, face: nat): (r: Option<FaceRecord>)
    ensures r.Some? ==> r.value in rs && r.value.face == face
    ensures r.None? ==> !HasRecord(rs, face)
  {
    if rs == [] then None
    else if rs[0].face == face then Some(rs[0])
    else
      assert HasRecord(rs, face) ==> HasRecord(rs[1..], face) by {
        if HasRecord(rs, face) {
          var i :| 0 <= i < |rs| && rs[i].face == face;
          assert rs[1..][i - 1].face == face;
        }
      }
      RecordOf(rs[1..], face)
  }

  predicate InUse(rs: seq<FaceRecord>, face: nat, now: nat) {
    RecordOf(rs, face).Some? && RecordOf(rs, face).value.expiry > now
  }

  /** The first of the faces, in list order, that is not in use. */
  function FirstUnused(es: seq<nat>, rs: seq<FaceRecord>, now: nat): Option<nat> {
    if es == [] then None else if !InUse(rs, es[0], now) then Some(es[0]) else FirstUnused(es[1..], rs, now)
  }

  /** The face renewed earliest, the first in list order among equals. */
  function Earliest(es: seq<nat>, rs: seq<FaceRecord>): (e: Option<nat>)
    requires forall f: nat :: f in es ==> RecordOf(rs, f).Some?
    ensures e.Some? ==> e.value in es
    ensures e.None? <==> es == []
  {
    if es == [] then None
    else
      var front, last := es[..|es| - 1], es[|es| - 1];
      assert forall f: nat :: f in front ==> f in es;
      var e := Earliest(front, rs);
      if e.None? || RecordOf(rs, last).value.renewed < RecordOf(rs, e.value).value.renewed then Some(last) else e
  }

  lemma EarliestSnoc(es: seq<nat>, hop: nat, rs: seq<FaceRecord>)
    requires RecordOf(rs, hop).Some? && forall f :: f in es ==> RecordOf(rs, f).Some?
    ensures forall f :: f in es + [hop] ==> RecordOf(rs, f).Some?
    ensures var e := Earliest(es, rs);
            Earliest(es + [hop], rs)
            == if e.None? || RecordOf(rs, hop).value.renewed < RecordOf(rs, e.value).value.renewed then Some(hop) else e
  {
    assert (es + [hop])[..|es|] == es;
  }

  /** findEligibleNextHopWithEarliestOutRecord; the assertion that each has an out-record holds
      for every eligible next hop. */
  method FindEarliest(a: Ask, rs: seq<FaceRecord>) returns (found: Option<nat>)
    requires forall f: nat :: f in a.nexthops && Allowed(a, f) ==> RecordOf(rs, f).Some?
    ensures found == Earliest(Eligible(a, a.nexthops), rs)
  {
    found := None;
    var earliestRenewed := 0;
    ghost var es: seq<nat> := [];
    for i := 0 to |a.nexthops|
      invariant es == Eligible(a, a.nexthops[..i])
      invariant forall f: nat :: f in es ==> f in a.nexthops && Allowed(a, f)
      invariant found == Earliest(es, rs)
      invariant found.Some? ==> earliestRenewed == RecordOf(rs, found.value).value.renewed
    {
      var hop := a.nexthops[i];
      EligibleSnoc(a, a.nexthops, i);
      if Allowed(a, hop) {
        EarliestSnoc(es, hop, rs);
        var outRecord := RecordOf(rs, hop).value;
        if found.None? || outRecord.renewed < earliestRenewed {
          found := Some(hop);
          earliestRenewed := outRecord.renewed;
        }
        es := es + [hop];
      }
    }
    assert a.nexthops[..|a.nexthops|] == a.nexthops;
  }

  lemma EligibleSnoc(a: Ask, hops: seq<nat>, i: nat)
    requires i < |hops|
    ensures Eligible(a, hops[..i + 1]) == Eligible(a, hops[..i]) + if Allowed(a, hops[i]) then [hops[i]] else []
  {
    assert hops[..i + 1] == hops[..i] + [hops[i]];
    EligibleConcat(a, hops[..i], [hops[i]]);
    assert [hops[i]][1..] == [];
  }

  lemma {:induction false} EligibleConcat(a: Ask, x: seq<nat>, y: seq<nat>)
    ensures Eligible(a, x + y) == Eligible(a, x) + Eligible(a, y)
  {
    if x == [] {
      assert x + y == y;
    } else {
      assert (x + y)[1..] == x[1..] + y;
      EligibleConcat(a, x[1..], y);
    }
  }

  /** std::find_if over the next hops with the eligibility predicate. */
  method FindIf(a: Ask, rs: seq<FaceRecord>, wantUnused: bool, now: nat) returns (found: Option<nat>)
    ensures !wantUnused ==> found == if Eligible(a, a.nexthops) == [] then None else Some(Eligible(a, a.nexthops)[0])
    ensures wantUnused ==> found == FirstUnused(Eligible(a, a.nexthops), rs, now)
  {
    for i := 0 to |a.nexthops|
      invariant wantUnused ==>
                  FirstUnused(Eligible(a, a.nexthops), rs, now) == FirstUnused(Eligible(a, a.nexthops[i..]), rs, now)
      invariant !wantUnused ==> Eligible(a, a.nexthops[i..]) == Eligible(a, a.nexthops)
    {
      assert a.nexthops[i..][0] == a.nexthops[i] && a.nexthops[i..][1..] == a.nexthops[i + 1..];
      var hop := a.nexthops[i];
      if Allowed(a, hop) {
        assert Eligible(a, a.nexthops[i..])[0] == hop
            && Eligible(a, a.nexthops[i..])[1..] == Eligible(a, a.nexthops[i + 1..]);
        if !(wantUnused && InUse(rs, hop, now)) {
          return Some(hop);
        }
      } else {
        assert Eligible(a, a.nexthops[i..]) == Eligible(a, a.nexthops[i + 1..]);
      }
    }
    return None;
  }

  // ----- suppression -----

  datatype Decision = NEW | FORWARD | SUPPRESS

  predicate AnyUnexpired(rs: seq<FaceRecord>, now: nat) {
    exists i :: 0 <= i < |rs| && rs[i].expiry >= now
  }

  /** getLastOutgoing: when an Interest last went out. */
  method GetLastOutgoing(rs: seq<FaceRecord>) returns (last: nat)
    requires rs != []
    ensures IsLast(rs, last)
  {
    var lastOutgoing := rs[0];
    for i := 1 to |rs|
      invariant lastOutgoing in rs && forall r :: r in rs[..i] ==> r.renewed <= lastOutgoing.renewed
    {
      if lastOutgoing.renewed < rs[i].renewed {
        lastOutgoing := rs[i];
      }
      assert rs[..i + 1] == rs[..i] + [rs[i]];
    }
    assert rs[..|rs|] == rs;
    last := lastOutgoing.renewed;
  }

  ghost predicate IsLast(rs: seq<FaceRecord>, t: nat) {
    (exists r :: r in rs && r.renewed == t) && forall r :: r in rs ==> r.renewed <= t
  }

  function Min(a: nat, b: nat): nat { if a <= b then a else b }

  /** The suppression parameters: the initial interval, what multiplying does to an interval, and
      the maximum. */
  datatype Backoff = Backoff(initial: nat, scale: real -> real, max: nat) {
    ghost predicate Valid() {
      0 < initial <= max && Scaling(scale)
    }
  }

  /** Multiplying by a number that is at least 1 keeps the order and shrinks nothing. */
  ghost predicate Scaling(scale: real -> real) {
    forall x: real, y: real {:trigger scale(x), scale(y)} :: 0.0 <= x <= y ==> scale(x) <= scale(y) && y <= scale(y)
  }

  function Multiplying(m: real): real -> real {
    (x: real) => x * m
  }

  /** 1 ms, doubled up to 250 ms, are the defaults. */
  function DefaultBackoff(): Backoff {
    Backoff(1_000, Multiplying(2.0), 250_000)
  }

  lemma MultiplyingScales(m: real)
    requires 1.0 <= m
    ensures Scaling(Multiplying(m))
  {
    var scale := Multiplying(m);
    forall x: real, y: real {:trigger scale(x), scale(y)} | 0.0 <= x <= y
      ensures scale(x) <= scale(y) && y <= scale(y)
    {
      Products(x, y, m);
    }
  }

  lemma Products(x: real, y: real, m: real)
    requires 0.0 <= x <= y && 1.0 <= m
    ensures x * m <= y * m && y <= y * m
  {
    assert (y - x) * m >= 0.0;
    assert y * (m - 1.0) >= 0.0;
  }

  /** duration_cast drops the fraction. */
  function Grown(b: Backoff, interval: nat): (grown: nat)
    requires b.Valid()
    ensures grown <= b.max && (0 < interval ==> 0 < grown)
  {
    assert interval as real <= b.scale(interval as real);
    Min(b.max, b.scale(interval as real).Floor)
  }

  /** The interval after some forwarded retransmissions. */
  function IntervalAfter(b: Backoff, n: nat): (interval: nat)
    requires b.Valid()
    ensures 0 < interval <= b.max
  {
    if n == 0 then b.initial else Grown(b, IntervalAfter(b, n - 1))
  }

  function Least(a: real, b: real): real { if a <= b then a else b }

  /** The initial interval multiplied n times. */
  function Scaled(b: Backoff, n: nat): real {
    if n == 0 then b.initial as real else b.scale(Scaled(b, n - 1))
  }

  /** The documented closed form: the least of the maximum and the initial interval times a power
      of the multiplier. */
  function ClosedForm(b: Backoff, n: nat): real {
    Least(b.max as real, Scaled(b, n))
  }

  function Power(m: real, n: nat): real {
    if n == 0 then 1.0 else Power(m, n - 1) * m
  }

  lemma {:induction false} ScaledIsPower(b: Backoff, m: real, n: nat)
    requires b.scale == Multiplying(m)
    ensures Scaled(b, n) == b.initial as real * Power(m, n)
  {
    if n > 0 {
      ScaledIsPower(b, m, n - 1);
      Associates(b.initial as real, Power(m, n - 1), m);
    }
  }

  lemma Associates(x: real, y: real, z: real)
    ensures x * y * z == x * (y * z)
  {
  }

  predicate Whole(x: real) {
    x.Floor as real == x
  }

  /** With fractions dropped on the way, the interval never exceeds the closed form, and it is the
      closed form up to some retransmission exactly if that is a whole number up to there. */
  lemma IntervalIs(b: Backoff, n: nat)
    requires b.Valid()
    ensures IntervalAfter(b, n) as real <= ClosedForm(b, n)
    ensures (forall k: nat :: k <= n ==> IntervalAfter(b, k) as real == ClosedForm(b, k))
            <==> forall k: nat :: k <= n ==> Whole(ClosedForm(b, k))
  {
    IntervalBelow(b, n);
    if forall k: nat :: k <= n ==> Whole(ClosedForm(b, k)) {
      forall k: nat | k <= n
        ensures IntervalAfter(b, k) as real == ClosedForm(b, k)
      {
        IntervalExact(b, k);
      }
    } else {
      var k: nat :| k <= n && !Whole(ClosedForm(b, k));
      assert IntervalAfter(b, k) as real != ClosedForm(b, k);
    }
  }

  lemma {:induction false} IntervalBelow(b: Backoff, n: nat)
    requires b.Valid()
    ensures IntervalAfter(b, n) as real <= ClosedForm(b, n)
  {
    if n > 0 {
      IntervalBelow(b, n - 1);
      Growth(b, IntervalAfter(b, n - 1), Scaled(b, n - 1));
    }
  }

  lemma {:induction false} IntervalExact(b: Backoff, n: nat)
    requires b.Valid() && forall k: nat :: k <= n ==> Whole(ClosedForm(b, k))
    ensures IntervalAfter(b, n) as real == ClosedForm(b, n)
  {
    if n > 0 {
      IntervalExact(b, n - 1);
      assert Whole(ClosedForm(b, n));
      Growth(b, IntervalAfter(b, n - 1), Scaled(b, n - 1));
    }
  }

  lemma Growth(b: Backoff, interval: nat, p: real)
    requires b.Valid() && interval as real <= Least(b.max as real, p)
    ensures Grown(b, interval) as real <= Least(b.max as real, b.scale(p))
    ensures interval as real == Least(b.max as real, p) && Whole(Least(b.max as real, b.scale(p))) ==>
              Grown(b, interval) as real == Least(b.max as real, b.scale(p))
  {
    assert b.scale(interval as real) <= b.scale(p);
  }

  /** With a whole multiplier, as the default is, the interval is the closed form. */
  lemma WholeMultiplier(b: Backoff, m: nat, n: nat)
    requires b.Valid() && b.scale == Multiplying(m as real)
    ensures IntervalAfter(b, n) as real == ClosedForm(b, n)
  {
    WholeClosed(b, m, n);
    IntervalExact(b, n);
  }

  lemma DefaultIntervals(n: nat)
    ensures var b := DefaultBackoff();
            b.Valid() && IntervalAfter(b, n) as real == ClosedForm(b, n) && Scaled(b, n) == 1000.0 * Power(2.0, n)
  {
    var b := DefaultBackoff();
    MultiplyingScales(2.0);
    WholeMultiplier(b, 2, n);
    ScaledIsPower(b, 2.0, n);
  }

  lemma {:induction false} WholeClosed(b: Backoff, m: nat, n: nat)
    requires b.scale == Multiplying(m as real)
    ensures forall k: nat :: k <= n ==> Whole(ClosedForm(b, k))
  {
    WholeScaled(b, m, n);
    LeastWhole(b.max, Scaled(b, n));
    if n > 0 {
      WholeClosed(b, m, n - 1);
    }
  }

  lemma LeastWhole(max: nat, x: real)
    ensures Whole(x) ==> Whole(Least(max as real, x))
  {
  }

  lemma {:induction false} WholeScaled(b: Backoff, m: nat, n: nat)
    requires b.scale == Multiplying(m as real)
    ensures Whole(Scaled(b, n))
  {
    if n > 0 {
      WholeScaled(b, m, n - 1);
      ScaledNext(b, m as real, n);
      WholeProduct(Scaled(b, n - 1), m, Scaled(b, n));
    }
  }

  lemma ScaledNext(b: Backoff, m: real, n: nat)
    requires b.scale == Multiplying(m) && n > 0
    ensures Scaled(b, n) == Scaled(b, n - 1) * m
  {
  }

  lemma WholeProduct(x: real, m: nat, y: real)
    requires Whole(x) && y == x * m as real
    ensures Whole(y)
  {
    var n := x.Floor * m;
    assert n as real == y;
  }

  /** The out-record of the face is renewed; nonces play no part here. */
  function Renewed(rs: seq<FaceRecord>, face: nat, now: nat, lifetime: nat): seq<FaceRecord> {
    Updated(rs, FaceRecord(face, 0, now, now + lifetime, lifetime))
  }

  class PitEntry {
    var outRecords: seq<FaceRecord>
    /** PitInfo, from the first retransmission on. */
    var suppressionInterval: Option<nat>
    const backoff: Backoff

    constructor (backoff: Backoff)
      requires backoff.Valid()
      ensures outRecords == [] && suppressionInterval == None && this.backoff == backoff
    {
      this.backoff := backoff;
      outRecords, suppressionInterval := [], None;
    }

    function Interval(): nat
      reads this`suppressionInterval
    {
      if suppressionInterval.Some? then suppressionInterval.value else backoff.initial
    }

    /** decide: an entry with nothing out is new; a retransmission too soon after the last
        transmission is suppressed, and one that is forwarded makes the interval grow. */
    method Decide(now: nat) returns (d: Decision)
      requires backoff.Valid() && forall r :: r in outRecords ==> r.renewed <= now
      modifies this`suppressionInterval
      ensures d == NEW <==> !AnyUnexpired(outRecords, now)
      ensures d == FORWARD <==> AnyUnexpired(outRecords, now) && forall t: nat :: IsLast(outRecords, t) ==>
                  now - t >= old(Interval())
      ensures Interval() == if d == FORWARD then Grown(backoff, old(Interval())) else old(Interval())
    {
      if !AnyUnexpired(outRecords, now) {
        return NEW;
      }
      var lastOutgoing := GetLastOutgoing(outRecords);
      if suppressionInterval.None? {
        suppressionInterval := Some(backoff.initial);
      }
      if now - lastOutgoing < suppressionInterval.value {
        return SUPPRESS;
      }
      suppressionInterval := Some(Grown(backoff, suppressionInterval.value));
      return FORWARD;
    }

    /** sendInterest: the out-record of the face is renewed. */
    method Send(face: nat, now: nat, lifetime: nat)
      modifies this`outRecords
      ensures outRecords == Renewed(old(outRecords), face, now, lifetime)
    {
      outRecords := Renewed(outRecords, face, now, lifetime);
    }

    /** afterReceiveInterest: a new Interest goes to the first eligible next hop, or is rejected
        when there is none; a retransmission that is not suppressed goes to the first one not in
        use, and when all are in use to the one used earliest. */
    method AfterReceiveInterest(a: Ask, now: nat, lifetime: nat) returns (sent: Option<nat>, rejected: bool)
      requires backoff.Valid() && forall r :: r in outRecords ==> r.renewed <= now
      modifies this
      ensures var d := DecisionAt(old(outRecords), now, old(Interval()));
              && sent == Target(a, d, old(outRecords), now)
              && rejected == (d == NEW && sent == None)
              && Interval() == (if d == FORWARD then Grown(backoff, old(Interval())) else old(Interval()))
      ensures outRecords == if sent.Some? then Renewed(old(outRecords), sent.value, now, lifetime) else old(outRecords)
    {
      rejected := false;
      var d := Decide(now);
      DecisionIs(outRecords, now, old(Interval()), d);
      sent := None;
      if d == NEW {
        sent := FindIf(a, outRecords, false, now);
        rejected := sent.None?;
      } else if d == FORWARD {
        sent := FindIf(a, outRecords, true, now);
        if sent.None? {
          AllInUse(Eligible(a, a.nexthops), outRecords, now);
          sent := FindEarliest(a, outRecords);
        }
      }
      if sent.Some? {
        Send(sent.value, now, lifetime);
      }
    }
  }

  lemma {:induction false} AllInUse(es: seq<nat>, rs: seq<FaceRecord>, now: nat)
    ensures FirstUnused(es, rs, now).None? <==> forall f: nat :: f in es ==> InUse(rs, f, now)
  {
    if es != [] {
      assert forall f: nat :: f in es <==> f == es[0] || f in es[1..];
      AllInUse(es[1..], rs, now);
    }
  }

  // ----- the decision as a function -----

  function LastRenewed(rs: seq<FaceRecord>): (t: nat)
    requires rs != []
    ensures IsLast(rs, t)
  {
    if |rs| == 1 then rs[0].renewed
    else
      assert forall r :: r in rs <==> r == rs[0] || r in rs[1..];
      if rs[0].renewed > LastRenewed(rs[1..]) then rs[0].renewed else LastRenewed(rs[1..])
  }

  function DecisionAt(rs: seq<FaceRecord>, now: nat, interval: nat): Decision {
    if !AnyUnexpired(rs, now) then NEW else if now - LastRenewed(rs) < interval then SUPPRESS else FORWARD
  }

  lemma DecisionIs(rs: seq<FaceRecord>, now: nat, interval: nat, d: Decision)
    requires d == NEW <==> !AnyUnexpired(rs, now)
    requires d == FORWARD <==> AnyUnexpired(rs, now) && forall t: nat :: IsLast(rs, t) ==> now - t >= interval
    ensures d == DecisionAt(rs, now, interval)
  {
    if AnyUnexpired(rs, now) {
      assert IsLast(rs, LastRenewed(rs));
    }
  }

  function Target(a: Ask, d: Decision, rs: seq<FaceRecord>, now: nat): Option<nat> {
    var es := Eligible(a, a.nexthops);
    match d
    case NEW => if es == [] then None else Some(es[0])
    case SUPPRESS => None
    case FORWARD =>
      if FirstUnused(es, rs, now).Some? then FirstUnused(es, rs, now)
      else
        AllInUse(es, rs, now);
        Earliest(es, rs)
  }

  // ----- the cycle -----

  /** One downstream's view of the entry: its out-records, the interval, and the sends so far. */
  datatype Course = Course(records: seq<FaceRecord>, interval: nat, sends: seq<(nat, nat)>)

  /** An Interest, when it comes and how long it may stay out. */
  datatype Arrival = Arrival(at: nat, lifetime: nat)

  /** The strategy's answer to an Interest, as AfterReceiveInterest gives it. */
  function Answer(c: Course, a: Ask, b: Backoff, now: nat, lifetime: nat): Course
    requires b.Valid()
  {
    var d := DecisionAt(c.records, now, c.interval);
    var sent := Target(a, d, c.records, now);
    Course(if sent.Some? then Renewed(c.records, sent.value, now, lifetime) else c.records,
           if d == FORWARD then Grown(b, c.interval) else c.interval,
           if sent.Some? then c.sends + [(sent.value, now)] else c.sends)
  }

  /** Interests of one downstream, at times that do not decrease. */
  function Follow(a: Ask, b: Backoff, arrivals: seq<Arrival>): Course
    requires b.Valid()
  {
    if arrivals == [] then Course([], b.initial, [])
    else
      var last := arrivals[|arrivals| - 1];
      Answer(Follow(a, b, arrivals[..|arrivals| - 1]), a, b, last.at, last.lifetime)
  }

  function LastAt(arrivals: seq<Arrival>): nat {
    if arrivals == [] then 0 else arrivals[|arrivals| - 1].at
  }

  ghost predicate NonDecreasing(arrivals: seq<Arrival>) {
    forall i, j :: 0 <= i < j < |arrivals| ==> arrivals[i].at <= arrivals[j].at
  }

  /** No out-record expires: whenever an Interest comes, all that went out is still pending. */
  ghost predicate NothingExpires(a: Ask, b: Backoff, arrivals: seq<Arrival>)
    requires b.Valid()
  {
    forall i :: 0 <= i < |arrivals| ==>
      forall r :: r in Follow(a, b, arrivals[..i]).records ==> r.expiry > arrivals[i].at
  }

  /** Whose turn the i-th send is, of k. */
  function Turn(i: nat, k: nat): (j: nat)
    requires 0 < k
    ensures j < k
  {
    if i < k then i else Turn(i - k, k)
  }

  lemma {:induction false} TurnIsModulo(i: nat, k: nat)
    requires 0 < k
    ensures Turn(i, k) == i % k
  {
    if i >= k {
      TurnIsModulo(i - k, k);
      assert i - k == (i - k) / k * k + (i - k) % k;
      assert ((i - k) / k + 1) * k == (i - k) / k * k + k;
      Remainder(i, (i - k) / k + 1, (i - k) % k, k);
    }
  }

  lemma Remainder(a: nat, q: nat, r: nat, k: nat)
    requires 0 < k && r < k && a == q * k + r
    ensures a % k == r
  {
    var q', r' := a / k, a % k;
    assert a == q' * k + r';
    assert (q - q') * k == r' - r;
    SmallMultiple(q - q', k);
  }

  lemma SmallMultiple(d: int, k: int)
    requires 0 < k && -k < d * k < k
    ensures d == 0
  {
    assert d * k == k + (d - 1) * k;
    assert d * k == -k + (d + 1) * k;
    if d >= 1 {
      NonNegative(d - 1, k);
    } else if d <= -1 {
      NonNegative(-(d + 1), k);
    }
  }

  lemma NonNegative(a: int, k: int)
    requires 0 <= a && 0 < k
    ensures a * k >= 0 && (-a) * k == -(a * k)
  {
  }

  /** The last of the first n sends whose turn it was for the j-th. */
  function LastSend(n: nat, k: nat, j: nat): (i: nat)
    requires j < k && j < n
    ensures i < n && Turn(i, k) == j
  {
    if Turn(n - 1, k) == j then n - 1
    else
      assert n - 1 != j;
      LastSend(n - 1, k, j)
  }

  lemma {:induction false} LastSendRecent(n: nat, k: nat, j: nat)
    requires j < k && j < n
    ensures n <= LastSend(n, k, j) + k
  {
    if Turn(n - 1, k) != j {
      LastSendRecent(n - 1, k, j);
      assert n - 1 >= k ==> Turn(n - 1, k) == Turn(n - 1 - k, k);
    }
  }

  lemma {:induction false} TurnsApart(i: nat, n: nat, k: nat)
    requires 0 < k && i < n < i + k
    ensures Turn(i, k) != Turn(n, k)
  {
    if i >= k {
      TurnsApart(i - k, n - k, k);
    }
  }

  /** The i-th send went to the face whose turn it was. */
  ghost predicate InTurn(sends: seq<(nat, nat)>, es: seq<nat>, now: nat)
    requires |es| > 0
  {
    forall i :: 0 <= i < |sends| ==> sends[i].0 == es[Turn(i, |es|)] && sends[i].1 <= now
  }

  /** The out-records are those of the last send to each face. */
  ghost predicate RecordsTrack(rs: seq<FaceRecord>, sends: seq<(nat, nat)>, es: seq<nat>)
    requires |es| > 0
  {
    && OnePerFace(rs)
    && (forall r :: r in rs ==> exists j :: 0 <= j < |es| && j < |sends| && es[j] == r.face)
    && (forall j {:trigger es[j]} :: 0 <= j < |es| && j < |sends| ==>
          RecordOf(rs, es[j]).Some? && RecordOf(rs, es[j]).value.renewed == sends[LastSend(|sends|, |es|, j)].1)
  }

  ghost predicate InCycle(c: Course, es: seq<nat>, b: Backoff, now: nat)
    requires b.Valid()
  {
    && |es| > 0
    && InTurn(c.sends, es, now) && Spaced(c.sends, b) && RecordsTrack(c.records, c.sends, es)
    && c.interval == IntervalAfter(b, if |c.sends| == 0 then 0 else |c.sends| - 1)
  }

  /** Consecutive sends are apart by the interval of their time. */
  ghost predicate Spaced(sends: seq<(nat, nat)>, b: Backoff)
    requires b.Valid()
  {
    forall i {:trigger Gap(sends, b, i)} :: 1 <= i < |sends| ==> Gap(sends, b, i)
  }

  ghost predicate Gap(sends: seq<(nat, nat)>, b: Backoff, i: nat)
    requires b.Valid() && 1 <= i < |sends|
  {
    sends[i].1 >= sends[i - 1].1 + IntervalAfter(b, i - 1)
  }

  lemma {:induction false} SendsIncrease(sends: seq<(nat, nat)>, b: Backoff, i: nat, j: nat)
    requires b.Valid() && Spaced(sends, b) && i < j < |sends|
    ensures sends[i].1 < sends[j].1
    decreases j
  {
    assert Gap(sends, b, j);
    if i < j - 1 {
      SendsIncrease(sends, b, i, j - 1);
    }
  }

  lemma {:induction false} RecordIs(rs: seq<FaceRecord>, r: FaceRecord)
    requires OnePerFace(rs) && r in rs
    ensures RecordOf(rs, r.face) == Some(r)
  {
    if rs[0] != r {
      assert r in rs[1..];
      RecordIs(rs[1..], r);
    }
  }

  /** The time of the last transmission is that of the last send. */
  lemma LastIsLastSend(c: Course, es: seq<nat>, b: Backoff, now: nat)
    requires b.Valid() && InCycle(c, es, b, now) && c.sends != []
    ensures c.records != [] && LastRenewed(c.records) == c.sends[|c.sends| - 1].1
  {
    var n, k := |c.sends|, |es|;
    var j := Turn(n - 1, k);
    TurnBelow(n - 1, k);
    assert es[j] in es && LastSend(n, k, j) == n - 1;
    var last := RecordOf(c.records, es[j]).value;
    forall r | r in c.records
      ensures r.renewed <= last.renewed
    {
      NotLater(c, es, b, now, r);
    }
    LastUnique(c.records, last);
  }

  lemma LastUnique(rs: seq<FaceRecord>, last: FaceRecord)
    requires last in rs && forall r :: r in rs ==> r.renewed <= last.renewed
    ensures LastRenewed(rs) == last.renewed
  {
    assert IsLast(rs, LastRenewed(rs));
  }

  lemma NotLater(c: Course, es: seq<nat>, b: Backoff, now: nat, r: FaceRecord)
    requires b.Valid() && InCycle(c, es, b, now) && c.sends != [] && r in c.records
    ensures r.renewed <= c.sends[|c.sends| - 1].1
  {
    var n, k := |c.sends|, |es|;
    var i :| 0 <= i < k && i < n && es[i] == r.face;
    RecordIs(c.records, r);
    if LastSend(n, k, i) < n - 1 {
      SendsIncrease(c.sends, b, LastSend(n, k, i), n - 1);
    }
  }

  lemma {:induction false} TurnBelow(i: nat, k: nat)
    requires 0 < k
    ensures Turn(i, k) <= i
  {
    if i >= k {
      TurnBelow(i - k, k);
    }
  }

  lemma {:induction false} FirstUnusedAt(es: seq<nat>, rs: seq<FaceRecord>, now: nat, n: nat)
    requires n < |es| && (forall j :: 0 <= j < n ==> InUse(rs, es[j], now)) && !InUse(rs, es[n], now)
    ensures FirstUnused(es, rs, now) == Some(es[n])
  {
    if n > 0 {
      FirstUnusedAt(es[1..], rs, now, n - 1);
    }
  }

  lemma {:induction false} EarliestIsLeast(es: seq<nat>, rs: seq<FaceRecord>, f: nat)
    requires forall g: nat :: g in es ==> RecordOf(rs, g).Some?
    requires f in es
    ensures Earliest(es, rs).Some?
    ensures RecordOf(rs, Earliest(es, rs).value).value.renewed <= RecordOf(rs, f).value.renewed
  {
    var front, last := es[..|es| - 1], es[|es| - 1];
    assert forall g: nat :: g in es <==> g in front || g == last;
    if f in front {
      EarliestIsLeast(front, rs, f);
    }
  }

  /** The face whose turn it is: the first unused one in the first round, afterwards the one
      used earliest. */
  lemma NextTarget(c: Course, a: Ask, b: Backoff, before: nat, now: nat)
    requires b.Valid() && var es := Eligible(a, a.nexthops); InCycle(c, es, b, before) && NoRepeats(es)
    requires c.sends != [] && forall r :: r in c.records ==> r.expiry > now
    ensures Target(a, FORWARD, c.records, now)
                == Some(Eligible(a, a.nexthops)[Turn(|c.sends|, |Eligible(a, a.nexthops)|)])
  {
    var es := Eligible(a, a.nexthops);
    var n, k := |c.sends|, |es|;
    AllInUse(es, c.records, now);
    if n < k {
      forall r | r in c.records
        ensures r.face != es[n]
      {
        var j :| 0 <= j < k && j < n && es[j] == r.face;
      }
      FirstUnusedAt(es, c.records, now, n);
    } else {
      forall f: nat | f in es
        ensures InUse(c.records, f, now)
      {
        var j :| 0 <= j < k && es[j] == f;
      }
      OldestTurn(c, es, b, before);
    }
  }

  ghost predicate NoRepeats(es: seq<nat>) {
    forall i, j :: 0 <= i < j < |es| ==> es[i] != es[j]
  }

  lemma OldestTurn(c: Course, es: seq<nat>, b: Backoff, now: nat)
    requires b.Valid() && InCycle(c, es, b, now) && NoRepeats(es) && |c.sends| >= |es|
    requires forall f: nat :: f in es ==> RecordOf(c.records, f).Some?
    ensures Earliest(es, c.records) == Some(es[Turn(|c.sends|, |es|)])
  {
    var n, k := |c.sends|, |es|;
    var j := Turn(n, k);
    EarliestIsLeast(es, c.records, es[j]);
    var e := Earliest(es, c.records).value;
    var i :| 0 <= i < k && es[i] == e;
    if i != j {
      Older(c.sends, b, k, i, j);
    }
  }

  /** The face whose turn comes next was used before every other. */
  lemma Older(sends: seq<(nat, nat)>, b: Backoff, k: nat, i: nat, j: nat)
    requires b.Valid() && Spaced(sends, b) && i < k <= |sends| && i != j && j < k && j == Turn(|sends|, k)
    ensures sends[LastSend(|sends|, k, j)].1 < sends[LastSend(|sends|, k, i)].1
  {
    var n := |sends|;
    var p, q := LastSend(n, k, j), LastSend(n, k, i);
    LastSendRecent(n, k, i);
    LastSendRecent(n, k, j);
    assert Turn(n - k, k) == j;
    if p > n - k {
      TurnsApart(p, n, k);
    }
    SendsIncrease(sends, b, p, q);
  }

  lemma RecordAfter(rs: seq<FaceRecord>, r: FaceRecord, face: nat)
    requires OnePerFace(rs)
    ensures RecordOf(Updated(rs, r), face) == if face == r.face then Some(r) else RecordOf(rs, face)
  {
    UpdatedIs(rs, r);
    var s := Updated(rs, r);
    if face == r.face {
      RecordIs(s, r);
    } else if RecordOf(rs, face).Some? {
      RecordIs(s, RecordOf(rs, face).value);
    } else if RecordOf(s, face).Some? {
      NoRecord(rs, RecordOf(s, face).value);
    }
  }

  lemma NoRecord(rs: seq<FaceRecord>, q: FaceRecord)
    ensures q in rs ==> RecordOf(rs, q.face).Some?
  {
  }

  /** A send to the face whose turn it is keeps the cycle. */
  lemma SendKeeps(c: Course, es: seq<nat>, b: Backoff, before: nat, now: nat, lifetime: nat)
    requires b.Valid() && InCycle(c, es, b, before) && before <= now && NoRepeats(es)
    requires c.sends != [] ==> now >= c.sends[|c.sends| - 1].1 + IntervalAfter(b, |c.sends| - 1)
    ensures var face := es[Turn(|c.sends|, |es|)];
            InCycle(Course(Renewed(c.records, face, now, lifetime), IntervalAfter(b, |c.sends|),
                           c.sends + [(face, now)]), es, b, now)
  {
    RecordsNext(c.records, c.sends, es, now, lifetime);
    SpacedNext(c.sends, b, (es[Turn(|c.sends|, |es|)], now));
    InTurnNext(c.sends, es, before, now);
  }

  lemma SpacedNext(sends: seq<(nat, nat)>, b: Backoff, s: (nat, nat))
    requires b.Valid() && Spaced(sends, b)
    requires (sends != [] ==> s.1 >= sends[|sends| - 1].1 + IntervalAfter(b, |sends| - 1))
    ensures Spaced(sends + [s], b)
  {
    var sends' := sends + [s];
    forall i {:trigger Gap(sends', b, i)} | 1 <= i < |sends'|
      ensures Gap(sends', b, i)
    {
      if i < |sends| {
        assert Gap(sends, b, i);
      }
    }
  }

  lemma InTurnNext(sends: seq<(nat, nat)>, es: seq<nat>, before: nat, now: nat)
    requires |es| > 0 && InTurn(sends, es, before) && before <= now
    ensures InTurn(sends + [(es[Turn(|sends|, |es|)], now)], es, now)
  {
  }

  lemma RecordsNext(rs: seq<FaceRecord>, sends: seq<(nat, nat)>, es: seq<nat>, now: nat, lifetime: nat)
    requires |es| > 0 && RecordsTrack(rs, sends, es) && NoRepeats(es)
    ensures var face := es[Turn(|sends|, |es|)];
            RecordsTrack(Renewed(rs, face, now, lifetime), sends + [(face, now)], es)
  {
    var r := FaceRecord(es[Turn(|sends|, |es|)], 0, now, now + lifetime, lifetime);
    UpdatedIs(rs, r);
    FacesNext(rs, sends, es, r);
    LastSendsNext(rs, sends, es, r);
  }

  lemma FacesNext(rs: seq<FaceRecord>, sends: seq<(nat, nat)>, es: seq<nat>, r: FaceRecord)
    requires |es| > 0 && RecordsTrack(rs, sends, es) && r.face == es[Turn(|sends|, |es|)]
    ensures forall q :: q in Updated(rs, r) ==> exists j :: 0 <= j < |es| && j < |sends| + 1 && es[j] == q.face
  {
    UpdatedIs(rs, r);
    TurnBelow(|sends|, |es|);
    forall q | q in Updated(rs, r)
      ensures exists j :: 0 <= j < |es| && j < |sends| + 1 && es[j] == q.face
    {
      FaceKnown(rs, sends, es, q, r);
    }
  }

  lemma LastSendsNext(rs: seq<FaceRecord>, sends: seq<(nat, nat)>, es: seq<nat>, r: FaceRecord)
    requires |es| > 0 && RecordsTrack(rs, sends, es) && NoRepeats(es) && r.face == es[Turn(|sends|, |es|)]
    ensures var rs', sends', n, k := Updated(rs, r), sends + [(r.face, r.renewed)], |sends|, |es|;
            forall j {:trigger es[j]} :: 0 <= j < k && j < n + 1 ==>
              RecordOf(rs', es[j]).Some? && RecordOf(rs', es[j]).value.renewed == sends'[LastSend(n + 1, k, j)].1
  {
    forall j {:trigger es[j]} | 0 <= j < |es| && j < |sends| + 1
      ensures RecordOf(Updated(rs, r), es[j]).Some?
      ensures RecordOf(Updated(rs, r), es[j]).value.renewed
              == (sends + [(r.face, r.renewed)])[LastSend(|sends| + 1, |es|, j)].1
    {
      RecordAfter(rs, r, es[j]);
      TurnOfNew(|sends|, |es|, j);
    }
  }

  lemma FaceKnown(rs: seq<FaceRecord>, sends: seq<(nat, nat)>, es: seq<nat>, q: FaceRecord, r: FaceRecord)
    requires |es| > 0 && RecordsTrack(rs, sends, es) && (q == r || q in rs)
    requires r.face == es[Turn(|sends|, |es|)] && Turn(|sends|, |es|) <= |sends|
    ensures exists j :: 0 <= j < |es| && j < |sends| + 1 && es[j] == q.face
  {
    if q == r {
      assert es[Turn(|sends|, |es|)] == q.face;
    } else {
      var j :| 0 <= j < |es| && j < |sends| && es[j] == q.face;
    }
  }

  /** Below the end of the first round, the turn is the index itself. */
  lemma TurnOfNew(n: nat, k: nat, j: nat)
    requires j < k && j < n + 1
    ensures LastSend(n + 1, k, j) == if Turn(n, k) == j then n else LastSend(n, k, j)
    ensures Turn(n, k) != j ==> j < n
  {
  }

  lemma StepKeeps(c: Course, a: Ask, b: Backoff, before: nat, now: nat, lifetime: nat)
    requires b.Valid() && InCycle(c, Eligible(a, a.nexthops), b, before)
    requires before <= now && NoRepeats(Eligible(a, a.nexthops))
    requires forall r :: r in c.records ==> r.expiry > now
    ensures InCycle(Answer(c, a, b, now, lifetime), Eligible(a, a.nexthops), b, now)
  {
    if c.sends == [] {
      NothingSent(c.records, Eligible(a, a.nexthops));
      SendKeeps(c, Eligible(a, a.nexthops), b, before, now, lifetime);
    } else {
      LastIsLastSend(c, Eligible(a, a.nexthops), b, before);
      assert c.records[0] in c.records;
      if DecisionAt(c.records, now, c.interval) == FORWARD {
        NextTarget(c, a, b, before, now);
        SendKeeps(c, Eligible(a, a.nexthops), b, before, now, lifetime);
      } else {
        LaterKeeps(c, Eligible(a, a.nexthops), b, before, now);
      }
    }
  }

  lemma LaterKeeps(c: Course, es: seq<nat>, b: Backoff, before: nat, now: nat)
    requires b.Valid() && InCycle(c, es, b, before) && before <= now
    ensures InCycle(c, es, b, now)
  {
  }

  lemma FirstIn(rs: seq<FaceRecord>)
    requires rs != []
    ensures rs[0] in rs
  {
  }

  lemma NothingSent(rs: seq<FaceRecord>, es: seq<nat>)
    requires |es| > 0 && RecordsTrack(rs, [], es)
    ensures rs == []
  {
    if rs != [] {
      FirstIn(rs);
    }
  }

  lemma {:induction false} FollowKeeps(a: Ask, b: Backoff, arrivals: seq<Arrival>)
    requires b.Valid() && NoRepeats(Eligible(a, a.nexthops)) && Eligible(a, a.nexthops) != []
    requires NonDecreasing(arrivals) && NothingExpires(a, b, arrivals)
    ensures InCycle(Follow(a, b, arrivals), Eligible(a, a.nexthops), b, LastAt(arrivals))
  {
    if arrivals != [] {
      var front, last := arrivals[..|arrivals| - 1], arrivals[|arrivals| - 1];
      forall i | 0 <= i < |front|
        ensures forall r :: r in Follow(a, b, front[..i]).records ==> r.expiry > front[i].at
      {
        assert front[..i] == arrivals[..i];
      }
      FollowKeeps(a, b, front);
      StepKeeps(Follow(a, b, front), a, b, LastAt(front), last.at, last.lifetime);
    }
  }

  lemma {:induction false} EligibleDistinct(a: Ask, hops: seq<nat>)
    requires NoRepeats(hops)
    ensures NoRepeats(Eligible(a, hops))
  {
    if hops != [] {
      EligibleDistinct(a, hops[1..]);
      var rest := Eligible(a, hops[1..]);
      assert forall j :: 0 <= j < |rest| ==> rest[j] in rest && rest[j] in hops[1..];
      assert hops[0] !in hops[1..];
    }
  }

  /** Every Interest outlasts the last, as a caller can see from their times and lifetimes. */
  predicate WithinLifetime(arrivals: seq<Arrival>) {
    forall i :: 0 <= i < |arrivals| ==> LastAt(arrivals) < arrivals[i].at + arrivals[i].lifetime
  }

  lemma {:induction false} RecordsLast(a: Ask, b: Backoff, arrivals: seq<Arrival>, least: nat)
    requires b.Valid() && forall i :: 0 <= i < |arrivals| ==> arrivals[i].at + arrivals[i].lifetime >= least
    ensures forall r :: r in Follow(a, b, arrivals).records ==> r.expiry >= least
  {
    if arrivals != [] {
      var front, last := arrivals[..|arrivals| - 1], arrivals[|arrivals| - 1];
      RecordsLast(a, b, front, least);
      RenewedExpiry(Follow(a, b, front), a, b, last.at, last.lifetime, least);
    }
  }

  lemma RenewedExpiry(c: Course, a: Ask, b: Backoff, now: nat, lifetime: nat, least: nat)
    requires b.Valid() && (forall r :: r in c.records ==> r.expiry >= least) && now + lifetime >= least
    ensures forall r :: r in Answer(c, a, b, now, lifetime).records ==> r.expiry >= least
  {
    var sent := Target(a, DecisionAt(c.records, now, c.interval), c.records, now);
    if sent.Some? {
      NoneInvented(c.records, FaceRecord(sent.value, 0, now, now + lifetime, lifetime));
    }
  }

  lemma {:induction false} NoneReplaced(rs: seq<FaceRecord>, r: FaceRecord)
    requires HasRecord(rs, r.face)
    ensures forall q :: q in Replaced(rs, r) ==> q == r || q in rs
  {
    if rs[0].face != r.face {
      assert HasRecord(rs[1..], r.face) by {
        var i :| 0 <= i < |rs| && rs[i].face == r.face;
        assert rs[1..][i - 1].face == r.face;
      }
      NoneReplaced(rs[1..], r);
    }
  }

  lemma NoneInvented(rs: seq<FaceRecord>, r: FaceRecord)
    ensures forall q :: q in Updated(rs, r) ==> q == r || q in rs
  {
    if HasRecord(rs, r.face) {
      NoneReplaced(rs, r);
    }
  }

  lemma WithinNothingExpires(a: Ask, b: Backoff, arrivals: seq<Arrival>)
    requires b.Valid() && NonDecreasing(arrivals) && WithinLifetime(arrivals)
    ensures NothingExpires(a, b, arrivals)
  {
    forall i | 0 <= i < |arrivals|
      ensures forall r :: r in Follow(a, b, arrivals[..i]).records ==> r.expiry > arrivals[i].at
    {
      RecordsLast(a, b, arrivals[..i], LastAt(arrivals) + 1);
    }
  }

  /** Retransmissions cycle: for a fixed list of distinct next hops and one downstream, while no
      out-record expires, the i-th Interest that goes out (from 0) goes to the (i mod k)-th of the
      k eligible next hops, and comes after the one before by at least the suppression interval
      of that moment. */
  lemma RetransmissionsCycle(a: Ask, b: Backoff, arrivals: seq<Arrival>, i: nat)
    requires b.Valid() && NoRepeats(a.nexthops) && Eligible(a, a.nexthops) != []
    requires NonDecreasing(arrivals) && NothingExpires(a, b, arrivals)
    requires i < |Follow(a, b, arrivals).sends|
    ensures Cycles(Follow(a, b, arrivals).sends, Eligible(a, a.nexthops), b, i)
  {
    EligibleDistinct(a, a.nexthops);
    FollowKeeps(a, b, arrivals);
    CycleMeans(Follow(a, b, arrivals), Eligible(a, a.nexthops), b, LastAt(arrivals), i);
  }

  /** The i-th send, from 0: its face, and its distance from the one before. */
  ghost predicate Cycles(sends: seq<(nat, nat)>, es: seq<nat>, b: Backoff, i: nat)
    requires b.Valid() && i < |sends| && es != []
  {
    && sends[i].0 == es[i % |es|]
    && (i > 0 ==> sends[i].1 >= sends[i - 1].1 + IntervalAfter(b, i - 1))
  }

  lemma CycleMeans(c: Course, es: seq<nat>, b: Backoff, now: nat, i: nat)
    requires b.Valid() && InCycle(c, es, b, now) && i < |c.sends|
    ensures Cycles(c.sends, es, b, i)
  {
    TurnIsModulo(i, |es|);
    if i > 0 {
      assert Gap(c.sends, b, i);
    }
  }

  /** The same for Interests that all outlast the last of them. */
  lemma CycleWithinLifetime(a: Ask, b: Backoff, arrivals: seq<Arrival>, i: nat)
    requires b.Valid() && NoRepeats(a.nexthops) && Eligible(a, a.nexthops) != []
    requires NonDecreasing(arrivals) && WithinLifetime(arrivals)
    requires i < |Follow(a, b, arrivals).sends|
    ensures Cycles(Follow(a, b, arrivals).sends, Eligible(a, a.nexthops), b, i)
  {
    WithinNothingExpires(a, b, arrivals);
    RetransmissionsCycle(a, b, arrivals, i);
  }
}
