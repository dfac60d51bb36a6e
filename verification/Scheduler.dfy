/** The weighted round-robin queue manager: who is served, and how long anyone waits. */
module Scheduler {
  import opened Common

  /** Whose turn it is, and how many more services it may take in a row. */
  datatype Turn = Turn(index: nat, credit: nat)

  predicate WeightsOk(ws: seq<nat>) { |ws| > 0 && forall i :: 0 <= i < |ws| ==> ws[i] >= 1 }

  /** Credit always lies between one and the weight of the queue whose turn it is. */
  predicate TurnOk(ws: seq<nat>, t: Turn) { t.index < |ws| && 1 <= t.credit <= ws[t.index] }

  function Next(ws: seq<nat>, i: nat): (j: nat)
    requires i < |ws|
    ensures j < |ws|
    ensures j == if i + 1 < |ws| then i + 1 else 0
  {
    (i + 1) % |ws|
  }

  function PassOn(ws: seq<nat>, i: nat): Turn
    requires i < |ws|
  {
    Turn(Next(ws, i), ws[Next(ws, i)])
  }

  /** The turn after serving the queue whose turn it is. */
  function Served(ws: seq<nat>, t: Turn): Turn
    requires t.index < |ws|
  {
    if t.credit > 1 then Turn(t.index, t.credit - 1) else PassOn(ws, t.index)
  }

  /** Try at most n queues from the current one on; a queue that cannot be served loses its turn. */
  function Scan(ws: seq<nat>, t: Turn, ready: seq<bool>, n: nat): (Option<nat>, Turn)
    requires t.index < |ws| == |ready|
    decreases n
  {
    if n == 0 then (None, t)
    else if ready[t.index] then (Some(t.index), Served(ws, t))
    else Scan(ws, PassOn(ws, t.index), ready, n - 1)
  }

  /** One scheduling call: ready[i] says whether queue i would process a descriptor now. */
  function Schedule(ws: seq<nat>, t: Turn, ready: seq<bool>): (Option<nat>, Turn)
    requires t.index < |ws| == |ready|
  {
    Scan(ws, t, ready, |ws|)
  }

  class QueueManager {
    const weights: seq<nat>
    var index: nat
    var credit: nat

    /** Zero weights become one; the first queue starts with full credit. */
    constructor (configured: seq<nat>)
      ensures |weights| == |configured|
      ensures forall i :: 0 <= i < |weights| ==> weights[i] == if configured[i] == 0 then 1 else configured[i]
      ensures index == 0 && credit == if weights == [] then 0 else weights[0]
    {
      var ws := [];
      for i := 0 to |configured|
        invariant |ws| == i
        invariant forall k :: 0 <= k < i ==> ws[k] == if configured[k] == 0 then 1 else configured[k]
      {
        ws := ws + [if configured[i] == 0 then 1 else configured[i]];
      }
      weights, index := ws, 0;
      credit := if ws == [] then 0 else ws[0];
    }

    ghost predicate Valid()
      reads this
    {
      weights == [] || (WeightsOk(weights) && TurnOk(weights, Turn(index, credit)))
    }

    method ProcessOnce(ready: seq<bool>) returns (served: Option<nat>)
      requires Valid() && |ready| == |weights|
      modifies this`index, this`credit
      ensures Valid()
      ensures if weights == [] then served == None && index == old(index) && credit == old(credit)
              else (served, Turn(index, credit)) == Schedule(weights, Turn(old(index), old(credit)), ready)
    {
      if weights == [] {
        return None;
      }
      ghost var goal := Schedule(weights, Turn(index, credit), ready);
      for i := 0 to |weights|
        invariant TurnOk(weights, Turn(index, credit))
        invariant goal == Scan(weights, Turn(index, credit), ready, |weights| - i)
      {
        if ready[index] {
          served := Some(index);
          if credit > 1 {
            credit := credit - 1;
          } else {
            index := Next(weights, index);
            credit := weights[index];
          }
          return;
        }
        index := Next(weights, index);
        credit := weights[index];
      }
      served := None;
    }

    method Reset()
      requires Valid()
      modifies this`index, this`credit
      ensures Valid() && index == 0 && credit == if weights == [] then 0 else weights[0]
    {
      index := 0;
      credit := if weights == [] then 0 else weights[0];
    }
  }

  // ---------------------------------------------------------------------------
  // Waiting
  // ---------------------------------------------------------------------------

  /** Steps from i to q around the ring. */
  function Distance(n: nat, i: nat, q: nat): nat
    requires i < n && q < n
  {
    if i <= q then q - i else q + n - i
  }

  /** The weights of the queues from i up to, not including, q around the ring. */
  function Between(ws: seq<nat>, i: nat, q: nat): nat
    requires i < |ws| && q < |ws|
    decreases Distance(|ws|, i, q)
  {
    if i == q then 0 else ws[i] + Between(ws, Next(ws, i), q)
  }

  /** The most services other queues can take before q: the credit left, and every weight in between. */
  function Wait(ws: seq<nat>, t: Turn, q: nat): nat
    requires t.index < |ws| && q < |ws|
  {
    if t.index == q then 0 else t.credit + Between(ws, Next(ws, t.index), q)
  }

  /** A call with q ready serves somebody; if not q, then q's wait shrinks. */
  lemma {:induction false} ScanShrinksWait(ws: seq<nat>, t: Turn, ready: seq<bool>, q: nat, n: nat)
    requires WeightsOk(ws) && TurnOk(ws, t) && |ready| == |ws| && q < |ws| && ready[q]
    requires n > Distance(|ws|, t.index, q)
    ensures var (served, t') := Scan(ws, t, ready, n);
            && served.Some? && TurnOk(ws, t')
            && (served.value != q ==> Wait(ws, t', q) < Wait(ws, t, q))
            && (t.index == q ==> served.value == q)
    decreases n
  {
    if !ready[t.index] {
      ScanShrinksWait(ws, PassOn(ws, t.index), ready, q, n - 1);
    }
  }

  lemma NextDistance(ws: seq<nat>, i: nat, q: nat)
    requires i < |ws| && q < |ws| && i != q
    ensures Distance(|ws|, i, q) == Distance(|ws|, Next(ws, i), q) + 1
  {
  }

  /**
   * A scan of n queues serves the first ready one around the ring, and none if none of the n is
   * ready. A queue reached by passing others over starts with its full weight as credit.
   */
  lemma {:induction false} ScanServesFirst(ws: seq<nat>, t: Turn, ready: seq<bool>, n: nat)
    requires t.index < |ws| == |ready| && n <= |ws|
    ensures var (served, t') := Scan(ws, t, ready, n);
            match served
            case Some(q) =>
              && q < |ws| && ready[q] && Distance(|ws|, t.index, q) < n
              && (forall p :: 0 <= p < |ws| && Distance(|ws|, t.index, p) < Distance(|ws|, t.index, q) ==> !ready[p])
              && var credit := if q == t.index then t.credit else ws[q];
                 t' == if credit > 1 then Turn(q, credit - 1) else Turn((q + 1) % |ws|, ws[(q + 1) % |ws|])
            case None =>
              && (forall p :: 0 <= p < |ws| && Distance(|ws|, t.index, p) < n ==> !ready[p])
              && t'.index == (if t.index + n < |ws| then t.index + n else t.index + n - |ws|)
              && (n > 0 ==> t'.credit == ws[t'.index])
    decreases n
  {
    if n > 0 && !ready[t.index] {
      ScanServesFirst(ws, PassOn(ws, t.index), ready, n - 1);
      forall p | 0 <= p < |ws| && p != t.index ensures Distance(|ws|, t.index, p) == Distance(|ws|, Next(ws, t.index), p) + 1 {
        NextDistance(ws, t.index, p);
      }
    }
  }

  /** A call with nothing ready serves nobody and leaves the turn where it was, with full credit. */
  lemma NobodyReady(ws: seq<nat>, t: Turn, ready: seq<bool>)
    requires t.index < |ws| == |ready|
    ensures Schedule(ws, t, ready).0 == None <==> forall p :: 0 <= p < |ws| ==> !ready[p]
    ensures Schedule(ws, t, ready).0 == None ==> Schedule(ws, t, ready).1 == Turn(t.index, ws[t.index])
  {
    ScanServesFirst(ws, t, ready, |ws|);
  }

  /** Calls that all find q ready and never serve it. */
  ghost predicate Starves(ws: seq<nat>, t: Turn, calls: seq<seq<bool>>, q: nat)
    requires WeightsOk(ws) && TurnOk(ws, t) && q < |ws|
    decreases |calls|
  {
    calls == [] ||
    (&& |calls[0]| == |ws| && calls[0][q]
     && var (served, t') := Schedule(ws, t, calls[0]);
        served != Some(q) && TurnOk(ws, t') && Starves(ws, t', calls[1..], q))
  }

  function Sum(ws: seq<nat>): nat { if ws == [] then 0 else ws[0] + Sum(ws[1..]) }

  /**
   * A continuously serviceable queue waits at most the sum of the other queues' weights:
   * no longer run of calls can pass it over, whatever the other queues do.
   */
  lemma {:induction false} WaitIsBounded(ws: seq<nat>, t: Turn, calls: seq<seq<bool>>, q: nat)
    requires WeightsOk(ws) && TurnOk(ws, t) && q < |ws| && Starves(ws, t, calls, q)
    ensures |calls| <= Wait(ws, t, q) <= Sum(ws) - ws[q]
    decreases |calls|
  {
    WaitWithinOthers(ws, t, q);
    if calls != [] {
      ScanShrinksWait(ws, t, calls[0], q, |ws|);
      WaitIsBounded(ws, Schedule(ws, t, calls[0]).1, calls[1..], q);
    }
  }

  lemma {:induction false} SumSplit(ws: seq<nat>, i: nat)
    requires i <= |ws|
    ensures Sum(ws) == Sum(ws[..i]) + Sum(ws[i..])
  {
    if i == 0 {
      assert ws[0..] == ws;
    } else {
      SumSplit(ws[1..], i - 1);
      assert ws[..i][1..] == ws[1..][..i - 1];
      assert ws[1..][i - 1..] == ws[i..];
    }
  }

  /** Around the ring or along the list, the weights in between are the same sum. */
  lemma {:induction false} BetweenIsSum(ws: seq<nat>, i: nat, q: nat)
    requires i < |ws| && q < |ws|
    ensures Between(ws, i, q) == if i <= q then Sum(ws[i..q]) else Sum(ws[i..]) + Sum(ws[..q])
    decreases Distance(|ws|, i, q)
  {
    if i != q {
      BetweenIsSum(ws, Next(ws, i), q);
      if i < q {
        assert ws[i..q][1..] == ws[i + 1..q];
      } else {
        assert ws[i..][1..] == ws[i + 1..];
        if i + 1 == |ws| {
          assert ws[0..q] == ws[..q];
          assert ws[i + 1..] == [];
        }
      }
    }
  }

  /** Everything around the ring except q. */
  lemma OthersSum(ws: seq<nat>, q: nat)
    requires q < |ws|
    ensures Sum(ws) == ws[q] + Between(ws, Next(ws, q), q)
  {
    BetweenIsSum(ws, Next(ws, q), q);
    SumSplit(ws, q);
    assert ws[q..][1..] == ws[q + 1..];
    if q + 1 == |ws| {
      assert ws[q + 1..] == [];
      assert ws[0..q] == ws[..q];
    }
  }

  lemma {:induction false} BetweenShrinks(ws: seq<nat>, i: nat, j: nat, q: nat)
    requires i < |ws| && j < |ws| && q < |ws| && Distance(|ws|, j, q) <= Distance(|ws|, i, q)
    ensures Between(ws, j, q) <= Between(ws, i, q)
    decreases Distance(|ws|, i, q)
  {
    if i != j && i != q {
      BetweenShrinks(ws, Next(ws, i), j, q);
    }
  }

  lemma WaitWithinOthers(ws: seq<nat>, t: Turn, q: nat)
    requires WeightsOk(ws) && TurnOk(ws, t) && q < |ws|
    ensures Wait(ws, t, q) <= Sum(ws) - ws[q]
  {
    OthersSum(ws, q);
    if t.index != q {
      assert Between(ws, t.index, q) == ws[t.index] + Between(ws, Next(ws, t.index), q);
      BetweenShrinks(ws, Next(ws, q), t.index, q);
    }
  }

  // ---------------------------------------------------------------------------
  // Full rounds
  // ---------------------------------------------------------------------------

  /** The turn after k calls with every queue backlogged. */
  function After(ws: seq<nat>, t: Turn, k: nat): Turn
    requires WeightsOk(ws) && TurnOk(ws, t)
    decreases k
  {
    if k == 0 then t else After(ws, Served(ws, t), k - 1)
  }

  /** How often q is served in those calls. */
  function Times(ws: seq<nat>, t: Turn, k: nat, q: nat): nat
    requires WeightsOk(ws) && TurnOk(ws, t)
    decreases k
  {
    if k == 0 then 0 else (if t.index == q then 1 else 0) + Times(ws, Served(ws, t), k - 1, q)
  }

  /** With every queue ready, a call serves the queue whose turn it is. */
  lemma BackloggedCall(ws: seq<nat>, t: Turn, ready: seq<bool>)
    requires WeightsOk(ws) && TurnOk(ws, t) && |ready| == |ws| && forall i :: 0 <= i < |ready| ==> ready[i]
    ensures Schedule(ws, t, ready) == (Some(t.index), Served(ws, t))
  {
  }

  lemma {:induction false} AfterAdd(ws: seq<nat>, t: Turn, j: nat, k: nat, q: nat)
    requires WeightsOk(ws) && TurnOk(ws, t)
    ensures TurnOk(ws, After(ws, t, j))
    ensures After(ws, t, j + k) == After(ws, After(ws, t, j), k)
    ensures Times(ws, t, j + k, q) == Times(ws, t, j, q) + Times(ws, After(ws, t, j), k, q)
    decreases j
  {
    if j > 0 {
      AfterAdd(ws, Served(ws, t), j - 1, k, q);
    }
  }

  /** A queue uses up its credit and passes the turn on. */
  lemma {:induction false} DrainCredit(ws: seq<nat>, t: Turn, q: nat)
    requires WeightsOk(ws) && TurnOk(ws, t)
    ensures After(ws, t, t.credit) == PassOn(ws, t.index)
    ensures Times(ws, t, t.credit, q) == if t.index == q then t.credit else 0
    decreases t.credit
  {
    if t.credit > 1 {
      DrainCredit(ws, Served(ws, t), q);
    } else {
      assert After(ws, t, 1) == After(ws, Served(ws, t), 0);
      assert Times(ws, t, 1, q) == (if t.index == q then 1 else 0) + Times(ws, Served(ws, t), 0, q);
    }
  }

  /** The bound is attained: with every queue backlogged, q is served after exactly that many calls. */
  lemma {:induction false} BackloggedWaitIsExact(ws: seq<nat>, t: Turn, q: nat)
    requires WeightsOk(ws) && TurnOk(ws, t) && q < |ws|
    ensures After(ws, t, Wait(ws, t, q)).index == q
    ensures Times(ws, t, Wait(ws, t, q), q) == 0
    decreases Distance(|ws|, t.index, q)
  {
    if t.index != q {
      var t' := PassOn(ws, t.index);
      DrainCredit(ws, t, q);
      BackloggedWaitIsExact(ws, t', q);
      AfterAdd(ws, t, t.credit, Wait(ws, t', q), q);
    }
  }

  function FirstTurn(ws: seq<nat>): Turn
    requires WeightsOk(ws)
  {
    Turn(0, ws[0])
  }

  /** The rest of a round from the moment queue i gets its turn. */
  lemma {:induction false} RestOfRound(ws: seq<nat>, i: nat, q: nat)
    requires WeightsOk(ws) && i < |ws| && q < |ws|
    ensures After(ws, Turn(i, ws[i]), Sum(ws[i..])) == FirstTurn(ws)
    ensures Times(ws, Turn(i, ws[i]), Sum(ws[i..]), q) == if i <= q then ws[q] else 0
    decreases |ws| - i
  {
    var t := Turn(i, ws[i]);
    DrainCredit(ws, t, q);
    assert ws[i..][1..] == ws[i + 1..];
    AfterAdd(ws, t, ws[i], Sum(ws[i + 1..]), q);
    if i + 1 < |ws| {
      RestOfRound(ws, i + 1, q);
    } else {
      assert ws[i + 1..] == [];
    }
  }

  /** From reset, with every queue backlogged, each full round of calls serves queue q exactly weight[q] times. */
  lemma {:induction false} FullRoundsAreProportional(ws: seq<nat>, rounds: nat, q: nat)
    requires WeightsOk(ws) && q < |ws|
    ensures After(ws, FirstTurn(ws), rounds * Sum(ws)) == FirstTurn(ws)
    ensures Times(ws, FirstTurn(ws), rounds * Sum(ws), q) == rounds * ws[q]
    decreases rounds
  {
    if rounds > 0 {
      FullRoundsAreProportional(ws, rounds - 1, q);
      RestOfRound(ws, 0, q);
      assert ws[0..] == ws;
      AfterAdd(ws, FirstTurn(ws), (rounds - 1) * Sum(ws), Sum(ws), q);
      Distribute(rounds, Sum(ws));
      Distribute(rounds, ws[q]);
    }
  }

  lemma Distribute(r: nat, x: nat)
    requires r > 0
    ensures r * x == (r - 1) * x + x
  {
  }
}
