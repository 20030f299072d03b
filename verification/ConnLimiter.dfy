/** The connection limiter of the server, as an interleaved step system: OnPrepare adds one to a shared counter,
    compares what it got with the limit, and takes one off again when it rejects; OnDisconnect takes one off
    (pkg/server/server.go:135-160).  Each atomic addition is one step. */
module ConnLimiter {

  /** How far a connection's callbacks have got.  A goroutine in OnPrepare keeps what its addition returned. */
  datatype Phase = Comparing(current: int) | Rejecting | Live | Rejected | Closed

  datatype State = State(counter: int, conns: map<nat, Phase>)

  datatype Step = Add(c: nat) | Compare(c: nat) | TakeOff(c: nat) | Disconnect(c: nat)

  function Init(): State
  {
    State(0, map[])
  }

  /** A limit of zero or less is no limit. */
  predicate Over(maxConns: int, current: int)
  {
    maxConns > 0 && current > maxConns
  }

  predicate Enabled(s: State, step: Step)
  {
    match step
    case Add(c) => c !in s.conns
    case Compare(c) => c in s.conns && s.conns[c].Comparing?
    case TakeOff(c) => c in s.conns && s.conns[c].Rejecting?
    case Disconnect(c) => c in s.conns && s.conns[c].Live?
  }

  function Apply(maxConns: int, s: State, step: Step): State
    requires Enabled(s, step)
  {
    match step
    case Add(c) => State(s.counter + 1, s.conns[c := Comparing(s.counter + 1)])
    case Compare(c) => s.(conns := s.conns[c := if Over(maxConns, s.conns[c].current) then Rejecting else Live])
    case TakeOff(c) => State(s.counter - 1, s.conns[c := Rejected])
    case Disconnect(c) => State(s.counter - 1, s.conns[c := Closed])
  }

  ghost predicate Legal(maxConns: int, s: State, steps: seq<Step>)
    decreases |steps|
  {
    steps != [] ==> Enabled(s, steps[0]) && Legal(maxConns, Apply(maxConns, s, steps[0]), steps[1..])
  }

  ghost function Exec(maxConns: int, s: State, steps: seq<Step>): State
    requires Legal(maxConns, s, steps)
    decreases |steps|
  {
    if steps == [] then s else Exec(maxConns, Apply(maxConns, s, steps[0]), steps[1..])
  }

  // ----- counting connections

  ghost function Those(conns: map<nat, Phase>, p: Phase -> bool): set<nat>
  {
    set c | c in conns && p(conns[c])
  }

  predicate IsLive(p: Phase)
  {
    p.Live?
  }

  /** In the counter: accepted, or still inside OnPrepare. */
  predicate Counted(p: Phase)
  {
    p.Comparing? || p.Rejecting? || p.Live?
  }

  /** Accepted, or sure to be. */
  function Admitted(maxConns: int): Phase -> bool
  {
    (p: Phase) => p.Live? || (p.Comparing? && !Over(maxConns, p.current))
  }

  lemma ChangeOne(conns: map<nat, Phase>, c: nat, phase: Phase, p: Phase -> bool)
    ensures Those(conns[c := phase], p) == if p(phase) then Those(conns, p) + {c} else Those(conns, p) - {c}
    ensures c in Those(conns, p) <==> c in conns && p(conns[c])
  {
  }

  lemma Change(conns: map<nat, Phase>, c: nat, phase: Phase, p: Phase -> bool)
    ensures |Those(conns[c := phase], p)|
         == |Those(conns, p)| + (if p(phase) then 1 else 0) - (if c in conns && p(conns[c]) then 1 else 0)
  {
    hide Those;
    ChangeOne(conns, c, phase, p);
  }

  lemma Fewer(conns: map<nat, Phase>, p: Phase -> bool, q: Phase -> bool)
    requires forall phase :: p(phase) ==> q(phase)
    ensures |Those(conns, p)| <= |Those(conns, q)|
  {
    assert Those(conns, q) == Those(conns, p) + (Those(conns, q) - Those(conns, p));
  }

  // ----- the invariant

  /** The counter is the number of connections it counts, and the limit holds for those sure to be accepted. */
  ghost predicate Inv(maxConns: int, s: State)
  {
    && s.counter == |Those(s.conns, Counted)|
    && (maxConns > 0 ==> |Those(s.conns, Admitted(maxConns))| <= maxConns)
  }

  lemma InvKept(maxConns: int, s: State, step: Step)
    requires Inv(maxConns, s) && Enabled(s, step)
    ensures Inv(maxConns, Apply(maxConns, s, step))
  {
    var s' := Apply(maxConns, s, step);
    Change(s.conns, step.c, s'.conns[step.c], Counted);
    Change(s.conns, step.c, s'.conns[step.c], Admitted(maxConns));
    Fewer(s.conns, Admitted(maxConns), Counted);
  }

  lemma {:induction false} InvAlong(maxConns: int, s: State, steps: seq<Step>)
    requires Inv(maxConns, s) && Legal(maxConns, s, steps)
    ensures Inv(maxConns, Exec(maxConns, s, steps))
    decreases |steps|
  {
    hide Inv;
    if steps != [] {
      InvKept(maxConns, s, steps[0]);
      InvAlong(maxConns, Apply(maxConns, s, steps[0]), steps[1..]);
    }
  }

  /** However the callbacks interleave, a positive limit is never exceeded; the counter is the connections that are
      live plus those still inside OnPrepare, so it is never negative and comes back to the live ones. */
  lemma TheLimitHolds(maxConns: int, steps: seq<Step>)
    requires Legal(maxConns, Init(), steps)
    ensures var s := Exec(maxConns, Init(), steps);
            var live := |Those(s.conns, IsLive)|;
            && (maxConns > 0 ==> live <= maxConns)
            && s.counter == live + |Those(s.conns, (p: Phase) => p.Comparing? || p.Rejecting?)|
            && 0 <= live <= s.counter
  {
    hide Legal, Exec;
    assert Those(Init().conns, Counted) == {} && Those(Init().conns, Admitted(maxConns)) == {};
    InvAlong(maxConns, Init(), steps);
    var conns := Exec(maxConns, Init(), steps).conns;
    var inside := (p: Phase) => p.Comparing? || p.Rejecting?;
    Fewer(conns, IsLive, Admitted(maxConns));
    assert Those(conns, Counted) == Those(conns, IsLive) + Those(conns, inside);
    assert Those(conns, IsLive) !! Those(conns, inside);
  }

  /** What a connection's phase says about the comparison it makes or has made. */
  predicate Fits(maxConns: int, phase: Phase, over: bool)
  {
    match phase
    case Comparing(current) => Over(maxConns, current) == over
    case Rejecting | Rejected => over
    case Live | Closed => !over
  }

  lemma {:induction false} FitsAlong(maxConns: int, s: State, steps: seq<Step>, c: nat, over: bool)
    requires Legal(maxConns, s, steps) && c in s.conns && Fits(maxConns, s.conns[c], over)
    ensures var s' := Exec(maxConns, s, steps); c in s'.conns && Fits(maxConns, s'.conns[c], over)
    decreases |steps|
  {
    if steps != [] {
      FitsAlong(maxConns, Apply(maxConns, s, steps[0]), steps[1..], c, over);
    }
  }

  /** A connection is turned away exactly when, as it was counted, the live ones and those inside OnPrepare had
      already reached the limit; whatever happens before it compares makes no difference. */
  lemma TurnedAwayIff(maxConns: int, before: seq<Step>, c: nat, after: seq<Step>)
    requires Legal(maxConns, Init(), before) && c !in Exec(maxConns, Init(), before).conns
    requires Legal(maxConns, Apply(maxConns, Exec(maxConns, Init(), before), Add(c)), after)
    ensures var s := Exec(maxConns, Init(), before);
            var s' := Exec(maxConns, Apply(maxConns, s, Add(c)), after);
            && c in s'.conns
            && (!s'.conns[c].Comparing? ==>
                  (s'.conns[c].Rejecting? || s'.conns[c].Rejected?
                   <==> maxConns > 0 && |Those(s.conns, Counted)| >= maxConns))
  {
    hide Legal, Exec;
    var s := Exec(maxConns, Init(), before);
    assert Those(Init().conns, Counted) == {} && Those(Init().conns, Admitted(maxConns)) == {};
    InvAlong(maxConns, Init(), before);
    FitsAlong(maxConns, Apply(maxConns, s, Add(c)), after, c, Over(maxConns, s.counter + 1));
  }

  /** So a rejection still in flight can turn away a connection while none is live: with a limit of one, 1 is turned
      away because of 0, 0 goes, and 2 is turned away because of 1. */
  lemma InFlightRejectionsCount()
    ensures exists steps: seq<Step> :: Legal(1, Init(), steps) && TurnedAwayWhileIdle(Exec(1, Init(), steps))
  {
    var steps := [Add(0), Compare(0), Add(1), Compare(1), Disconnect(0), Add(2), Compare(2)];
    var a := Apply(1, Init(), Add(0));
    var b := Apply(1, a, Compare(0));
    var c := Apply(1, b, Add(1));
    var d := Apply(1, c, Compare(1));
    var e := Apply(1, d, Disconnect(0));
    var f := Apply(1, e, Add(2));
    var g := Apply(1, f, Compare(2));
    assert steps[1..][1..][1..][1..][1..][1..] == [Compare(2)];
    assert Legal(1, f, [Compare(2)]) && Exec(1, f, [Compare(2)]) == g;
    assert steps[1..][1..][1..][1..][1..] == [Add(2), Compare(2)];
    assert Legal(1, Init(), steps) && Exec(1, Init(), steps) == g;
    assert g.conns[2].Rejecting?;
  }

  ghost predicate TurnedAwayWhileIdle(s: State)
  {
    2 in s.conns && s.conns[2].Rejecting? && forall c :: c in s.conns ==> !s.conns[c].Live?
  }
}
