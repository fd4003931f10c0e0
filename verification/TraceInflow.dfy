/**
 The data that the host of app_trace.c sends to the target, as values: what it has posted in its memory
 block, what each block switch has taken into the down ring, and what the target has fetched.
 */
module TraceInflow {
  import opened Bytes

  /** A payload that a block switch has found, how many of its bytes the down ring has kept, and how many bytes
      in all the target had fetched by then. */
  datatype Intake = Intake(payload: seq<byte>, kept: nat, fetched: nat)

  function KeptOf(i: Intake): seq<byte> {
    i.payload[..Min(i.kept, |i.payload|)]
  }

  /** The bytes kept, and all bytes of the payloads. */
  function Kept(taken: seq<Intake>): seq<byte> {
    if taken == [] then [] else Kept(taken[..|taken| - 1]) + KeptOf(taken[|taken| - 1])
  }

  function Payloads(taken: seq<Intake>): seq<byte> {
    if taken == [] then [] else Payloads(taken[..|taken| - 1]) + taken[|taken| - 1].payload
  }

  /** The room that intake i finds in a ring of `cap` bytes: all bytes kept before and not fetched by then lie in
      the ring. */
  function RoomAt(taken: seq<Intake>, i: nat, cap: nat): nat
    requires i < |taken|
  {
    Max(0, cap - (|Kept(taken[..i])| - taken[i].fetched))
  }

  /** All payloads that the host has sent, the one that waits in its block, the ones taken in, and the bytes
      that the target has fetched. */
  datatype Inflow = Inflow(sent: seq<seq<byte>>, posted: Option<seq<byte>>, taken: seq<Intake>, delivered: seq<byte>) {

    /** The payloads sent have been taken in, in order, but for one that waits.  The bytes fetched and those in
        the down ring are the bytes kept; and each payload is kept as far as a ring of `cap` bytes has room. */
    ghost predicate Valid(queued: seq<byte>, cap: nat) {
      && |sent| == |taken| + (if posted.Some? then 1 else 0)
      && (forall i | 0 <= i < |taken| :: taken[i].payload == sent[i])
      && (posted.Some? ==> posted.value == sent[|taken|])
      && delivered + queued == Kept(taken)
      && (forall i | 0 <= i < |taken| ::
            && taken[i].kept == Min(|taken[i].payload|, RoomAt(taken, i, cap))
            && taken[i].fetched <= |Kept(taken[..i])| && taken[i].fetched <= |delivered|)
    }

    function Post(payload: seq<byte>): Inflow {
      this.(sent := sent + [payload], posted := Some(payload))
    }

    /** A block switch takes in what the host has posted, as far as there is room. */
    function Take(queued: seq<byte>, cap: nat): Inflow {
      if posted.None? then this
      else
        var kept := Max(0, Min(|posted.value|, cap - |queued|));
        Inflow(sent, None, taken + [Intake(posted.value, kept, |delivered|)], delivered)
    }

    /** The bytes that it takes in. */
    function Added(queued: seq<byte>, cap: nat): seq<byte> {
      if posted.None? then [] else posted.value[..Max(0, Min(|posted.value|, cap - |queued|))]
    }

    function Deliver(bytes: seq<byte>): Inflow {
      this.(delivered := delivered + bytes)
    }
  }

  lemma KeptSnoc(taken: seq<Intake>, i: Intake)
    ensures Kept(taken + [i]) == Kept(taken) + KeptOf(i)
  {
    assert (taken + [i])[..|taken|] == taken;
  }

  lemma PostKeeps(f: Inflow, payload: seq<byte>, queued: seq<byte>, cap: nat)
    requires f.Valid(queued, cap) && f.posted.None?
    ensures f.Post(payload).Valid(queued, cap)
  {
    hide Kept;
  }

  lemma TakeKeeps(f: Inflow, queued: seq<byte>, cap: nat)
    requires f.Valid(queued, cap)
    ensures f.Take(queued, cap).Valid(queued + f.Added(queued, cap), cap)
  {
    hide Kept;
    if f.posted.Some? {
      var n := f.Take(queued, cap).taken;
      var last := n[|f.taken|];
      KeptSnoc(f.taken, last);
      assert f.delivered + (queued + KeptOf(last)) == (f.delivered + queued) + KeptOf(last);
      forall i | 0 <= i < |n|
        ensures n[i].kept == Min(|n[i].payload|, RoomAt(n, i, cap))
        ensures n[i].fetched <= |Kept(n[..i])| && n[i].fetched <= |f.delivered|
      {
        if i < |f.taken| {
          assert n[i] == f.taken[i] && n[..i] == f.taken[..i];
        } else {
          assert n[..i] == f.taken;
        }
      }
    } else {
      assert queued + [] == queued;
    }
  }

  lemma DeliverKeeps(f: Inflow, bytes: seq<byte>, queued: seq<byte>, cap: nat)
    requires f.Valid(bytes + queued, cap)
    ensures f.Deliver(bytes).Valid(queued, cap)
  {
    assert (f.delivered + bytes) + queued == f.delivered + (bytes + queued);
  }

  /** Nothing is missing exactly if every payload finds room. */
  lemma {:induction false} WholePayloads(taken: seq<Intake>)
    requires forall i | 0 <= i < |taken| :: taken[i].kept <= |taken[i].payload|
    ensures |Kept(taken)| <= |Payloads(taken)|
    ensures Kept(taken) == Payloads(taken) <==> forall i | 0 <= i < |taken| :: taken[i].kept == |taken[i].payload|
    ensures Kept(taken) == Payloads(taken) <==> |Kept(taken)| == |Payloads(taken)|
    decreases |taken|
  {
    if taken != [] {
      var n := |taken| - 1;
      var front := taken[..n];
      assert forall i | 0 <= i < n :: front[i] == taken[i];
      WholePayloads(front);
      LastIntake(taken);
    }
  }

  lemma LastIntake(taken: seq<Intake>)
    requires taken != [] && taken[|taken| - 1].kept <= |taken[|taken| - 1].payload|
    ensures var front, last := taken[..|taken| - 1], taken[|taken| - 1];
      && |Kept(taken)| == |Kept(front)| + last.kept && |Payloads(taken)| == |Payloads(front)| + |last.payload|
      && (Kept(front) == Payloads(front) && last.kept == |last.payload| ==> Kept(taken) == Payloads(taken))
  {
  }

  lemma {:induction false} PayloadsAre(taken: seq<Intake>, sent: seq<seq<byte>>)
    requires |taken| <= |sent| && forall i | 0 <= i < |taken| :: taken[i].payload == sent[i]
    ensures Payloads(taken) == Concat(sent[..|taken|])
    decreases |taken|
  {
    if taken != [] {
      var n := |taken| - 1;
      PayloadsAre(taken[..n], sent);
      assert sent[..n + 1][..n] == sent[..n];
    }
  }

  /** The target gets the host's bytes in order.  It gets all of them if and only if every payload has found room
      for all its bytes; that is so as long as all of them together fit the ring. */
  lemma HostStream(f: Inflow, queued: seq<byte>, cap: nat)
    requires f.Valid(queued, cap)
    ensures f.delivered + queued == Kept(f.taken)
    ensures var sent := Concat(f.sent[..|f.taken|]);
      && (f.delivered + queued == sent <==>
            forall i | 0 <= i < |f.taken| :: |f.sent[i]| <= RoomAt(f.taken, i, cap))
      && (|sent| <= cap ==> f.delivered + queued == sent)
  {
    hide Kept, Payloads, Concat, RoomAt;
    PayloadsAre(f.taken, f.sent);
    WholePayloads(f.taken);
    if |Payloads(f.taken)| <= cap {
      forall i | 0 <= i < |f.taken| ensures |f.sent[i]| <= RoomAt(f.taken, i, cap) {
        RoomBelow(f.taken, i, cap);
      }
    }
  }

  lemma RoomBelow(taken: seq<Intake>, i: nat, cap: nat)
    requires i < |taken| && |Payloads(taken)| <= cap
    requires forall j | 0 <= j < |taken| :: taken[j].kept <= |taken[j].payload|
    ensures |taken[i].payload| <= RoomAt(taken, i, cap)
  {
    hide Kept, Payloads;
    assert forall j | 0 <= j < i :: taken[..i][j] == taken[j];
    WholePayloads(taken[..i]);
    PayloadsGrow(taken, i);
  }

  lemma {:induction false} PayloadsGrow(taken: seq<Intake>, i: nat)
    requires i < |taken|
    ensures |Payloads(taken[..i])| + |taken[i].payload| <= |Payloads(taken)|
    decreases |taken|
  {
    var n := |taken| - 1;
    if i < n {
      PayloadsGrow(taken[..n], i);
      assert taken[..n][..i] == taken[..i];
    }
  }
}
