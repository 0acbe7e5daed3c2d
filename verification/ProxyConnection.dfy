/** The serving loop of the stall proxy as an object: `_serve`, `_forward` and
    `_release` of bench/capability-corpus/roundtrip.py over the fields they change. */
module ProxyConnection {
  import opened Basics
  import opened Bytes
  import opened CrlfLines
  import opened StallProxy

  /** Take lines until none is complete; line `k` reads the clock at `clock(k)`. */
  function Drain(plan: Plan, s: State, clock: nat -> int): (s': State)
    decreases |s.buf|
  {
    if LineLength(s.buf) == 0 then s else Drain(plan, TakeLine(plan, s, clock(s.count)), clock)
  }

  /** A drained connection has taken every complete line the client has sent. */
  lemma {:induction false} DrainLaw(plan: Plan, s: State, clock: nat -> int)
    requires Inv(plan, s)
    ensures var s' := Drain(plan, s, clock);
            Inv(plan, s') && s'.input == s.input && s'.count == |Lines(s.input)| && s'.buf == Remainder(s.input)
    decreases |s.buf|
  {
    if LineLength(s.buf) > 0 {
      StepInv(plan, s, Take(clock(s.count)));
      DrainLaw(plan, TakeLine(plan, s, clock(s.count)), clock);
    } else {
      assert Lines(s.buf) == [];
    }
  }

  class Connection {
    const plan: Plan
    var buf: seq<Byte>
    var held: seq<Held>
    var sent: seq<Sent>
    var forwarded: nat
    var seen: Seen
    var count: nat
    ghost var input: seq<Byte>
    ghost var others: nat
    ghost var asked: seq<string>

    ghost function Abs(): State
      reads this
    {
      State(input, buf, count, held, sent, forwarded, seen, others, asked)
    }

    constructor (plan: Plan)
      ensures this.plan == plan && Abs() == START && Inv(plan, Abs())
    {
      this.plan := plan;
      buf, held, sent, forwarded, seen, count := [], [], [], 0, map[], 0;
      input, others, asked := [], 0, [];
      new;
      RunInv(plan, []);
    }

    method Forward(x: Sent)
      modifies this`sent, this`forwarded
      ensures sent == old(sent) + [x] && forwarded == old(forwarded) + 1
    {
      sent := sent + [x];
      forwarded := forwarded + 1;
    }

    /** The body of the line loop, for the first complete line of the buffer. */
    method Take(now: int)
      requires LineLength(buf) > 0
      modifies this
      ensures Abs() == TakeLine(plan, old(Abs()), now)
    {
      var n := LineLength(buf);
      var line := buf[..n];
      var (rule, counts) := Verdict(plan, seen, line);
      buf := buf[n..];
      seen := counts;
      match rule {
        case None =>
          Forward(Direct(count, line));
        case Some((mid, rule)) =>
          held := held + [Held(count, line, mid, rule, now, forwarded, now + rule.delay, now + rule.maxHold)];
      }
      count := count + 1;
    }

    /** Client data arrives: the buffer grows and is drained. Whatever the chunk, all
        complete lines of the stream so far have then been taken. */
    method OnData(data: seq<Byte>, clock: nat -> int)
      requires Inv(plan, Abs())
      modifies this
      ensures Abs() == Drain(plan, Receive(old(Abs()), data), clock)
      ensures Inv(plan, Abs()) && count == |Lines(input)| && buf == Remainder(input) && input == old(input) + data
    {
      StepInv(plan, Abs(), Chunk(data));
      buf := buf + data;
      input := input + data;
      ghost var start := Abs();
      while LineLength(buf) > 0
        invariant Drain(plan, Abs(), clock) == Drain(plan, start, clock)
        decreases |buf|
      {
        Take(clock(count));
      }
      DrainLaw(plan, start, clock);
    }

    /** `_release`: one pass over the hold list. */
    method ReleasePass(now: int)
      requires Inv(plan, Abs())
      modifies this`held, this`sent, this`forwarded
      ensures Abs() == Release(old(Abs()), now) && Inv(plan, Abs())
    {
      ghost var was := Abs();
      PassInv(plan, was, now);
      ReleaseLoop(now);
      assert Abs() == Release(was, now);
    }

    method ReleaseLoop(now: int)
      modifies this`held, this`sent, this`forwarded
      ensures sent == old(sent) + DueOf(old(held), now, old(forwarded))
      ensures held == KeptOf(old(held), now, old(forwarded))
      ensures forwarded == old(forwarded) + |DueOf(old(held), now, old(forwarded))|
    {
      var fwd := forwarded;
      var keep: seq<Held> := [];
      var todo := held;
      ghost var rest := held;
      ghost var goal, kept := sent + DueOf(held, now, fwd), KeptOf(held, now, fwd);
      for i := 0 to |todo|
        invariant rest == todo[i..]
        invariant sent + DueOf(rest, now, fwd) == goal
        invariant keep + KeptOf(rest, now, fwd) == kept
        invariant forwarded - |sent| == fwd - |old(sent)|
      {
        var h := todo[i];
        rest := todo[i + 1..];
        assert todo[i..][1..] == rest;
        if Due(h, now, fwd) {
          Regroup(sent, [Released(h, now, fwd)], DueOf(rest, now, fwd));
          Forward(Released(h, now, fwd));
        } else {
          Regroup(keep, [h], KeptOf(rest, now, fwd));
          keep := keep + [h];
        }
      }
      held := keep;
    }
  }
}
