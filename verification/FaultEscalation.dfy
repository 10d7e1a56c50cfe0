/** Escalation of exceptions that occur while an exception is delivered
  (src/cpu/protection.c): to a double fault and on to a triple fault. Delivery
  never returns to its caller, so a step of the processor is a chain of raised
  exceptions, the last of which is delivered or ends in a triple fault. */
module FaultEscalation {

  // Exception vectors.
  const DE := 0x00
  const DF := 0x08
  const MP := 0x09
  const TS := 0x0A
  const NP := 0x0B
  const SS := 0x0C
  const GP := 0x0D
  const PF := 0x0E
  const CP := 0x15
  const VC := 0x1D

  datatype Generation = Before286 | I286 | I386 | After386

  /** The processor features that classify exceptions. */
  datatype Model = Model(generation: Generation, shadowStack: bool, sevEs: bool)

  /** A raised exception; software interrupts come from INT, INT3 and INTO. */
  datatype Exception = Exception(vector: nat, software: bool)

  datatype Class = Benign | Contributory | PageFault | DoubleFault

  datatype Outcome = Entered(vector: nat) | TripleFault

  /** The classes, independently of the code that assigns them: sections 6.5 and
    6.15 of the Intel SDM, volume 3A. */
  function ClassOf(model: Model, e: Exception): Class {
    if e.software then Benign
    else if e.vector in {DE, TS, NP, SS, GP} then Contributory
    else if e.vector == MP && (model.generation == I286 || model.generation == I386) then Contributory
    else if e.vector == CP && model.shadowStack then Contributory
    else if e.vector == PF && (model.generation == I386 || model.generation == After386) then PageFault
    else if e.vector == VC && model.sevEs then PageFault
    else if e.vector == DF then DoubleFault
    else Benign
  }

  function Rank(c: Class): nat {
    match c
    case Benign => 0
    case Contributory => 1
    case PageFault => 2
    case DoubleFault => 3
  }

  datatype Verdict = Serially | AsDoubleFault | Shutdown

  /** Table 6-5 of the Intel SDM, volume 3A: how an exception of class `second`
    is handled that occurs while one of class `first` is delivered. An explicit
    double fault counts as a page fault after a double fault, and is delivered
    otherwise. */
  function Table(first: Class, second: Class): Verdict {
    match (first, second)
    case (Contributory, Contributory) => AsDoubleFault
    case (PageFault, Contributory) => AsDoubleFault
    case (PageFault, PageFault) => AsDoubleFault
    case (DoubleFault, Contributory) => Shutdown
    case (DoubleFault, PageFault) => Shutdown
    case (DoubleFault, DoubleFault) => Shutdown
    case (_, _) => Serially
  }

  /** The class of what is delivered for an exception, if anything is. */
  function Delivered(first: Class, second: Class): Class {
    if Table(first, second) == AsDoubleFault then DoubleFault else second
  }

  /** How a chain is handled by the table: `raised[0]` occurs while an exception of
    class `first` is delivered, and each further one during the delivery of the
    one before, until one is handled by a shutdown. */
  function TableVerdicts(model: Model, first: Class, raised: seq<Exception>): (v: seq<Verdict>)
    ensures |v| <= |raised| && (|raised| > 0 ==> |v| > 0)
    decreases |raised|
  {
    if |raised| == 0 then []
    else
      var c := ClassOf(model, raised[0]);
      [Table(first, c)]
      + if Table(first, c) == Shutdown then [] else TableVerdicts(model, Delivered(first, c), raised[1..])
  }

  /** The class to compare with after an exception: benign ones do not count. */
  function Latest(latest: Class, c: Class): Class {
    if c == Benign then latest else Delivered(latest, c)
  }

  /** The same chain where each exception is compared with the latest one that
    was not benign. */
  function LatestVerdicts(model: Model, latest: Class, raised: seq<Exception>): (v: seq<Verdict>)
    ensures |v| <= |raised| && (|raised| > 0 ==> |v| > 0)
    decreases |raised|
  {
    if |raised| == 0 then []
    else
      var c := ClassOf(model, raised[0]);
      [Table(latest, c)]
      + if Table(latest, c) == Shutdown then [] else LatestVerdicts(model, Latest(latest, c), raised[1..])
  }

  /** What a chain ends in: the last exception that was raised is delivered as
    itself or as a double fault, or shuts the processor down. */
  function OutcomeOf(raised: seq<Exception>, verdicts: seq<Verdict>): Outcome
    requires 0 < |verdicts| <= |raised|
  {
    var n := |verdicts| - 1;
    match verdicts[n]
    case Shutdown => TripleFault
    case AsDoubleFault => Entered(DF)
    case Serially => Entered(raised[n].vector)
  }

  /** Every exception that is not benign and occurs while a benign one is
    delivered has a higher class than the latest one that was not benign, if
    there was one; nothing is higher than a double fault. */
  predicate MaskedRises(model: Model, latest: Class, first: Class, raised: seq<Exception>)
    decreases |raised|
  {
    |raised| == 0 ||
    (var c := ClassOf(model, raised[0]);
     && (first == Benign && latest != Benign && c != Benign ==> latest != DoubleFault && Rank(latest) < Rank(c))
     && (Table(latest, c) == Shutdown || MaskedRises(model, Latest(latest, c), Delivered(first, c), raised[1..])))
  }

  /** Comparing with the latest exception that was not benign handles every
    exception of a chain as the table does if and only if each one that follows
    a benign one rises above it. */
  lemma {:induction false} TableFollowed(model: Model, latest: Class, first: Class, raised: seq<Exception>)
    requires first == latest || first == Benign
    ensures LatestVerdicts(model, latest, raised) == TableVerdicts(model, first, raised)
      <==> MaskedRises(model, latest, first, raised)
    decreases |raised|
  {
    if |raised| == 0 {
    } else {
      var c, rest := ClassOf(model, raised[0]), raised[1..];
      var v, t := LatestVerdicts(model, latest, raised), TableVerdicts(model, first, raised);
      assert v[0] == Table(latest, c) && t[0] == Table(first, c);
      if Table(latest, c) == Table(first, c) != Shutdown {
        TableFollowed(model, Latest(latest, c), Delivered(first, c), rest);
        assert v[1..] == LatestVerdicts(model, Latest(latest, c), rest);
        assert t[1..] == TableVerdicts(model, Delivered(first, c), rest);
      }
    }
  }

  /** The vectors that section 6.15 lists as contributory and as page faults. */
  function ContributoryVectors(model: Model): set<nat> {
    {0x00, 0x0A, 0x0B, 0x0C, 0x0D}
    + (if model.generation == I286 || model.generation == I386 then {0x09} else {})
    + (if model.shadowStack then {0x15} else {})
  }

  function PageVectors(model: Model): set<nat> {
    (if model.generation == I386 || model.generation == After386 then {0x0E} else {})
    + (if model.sevEs then {0x1D} else {})
  }

  /** Whether an exception takes part in the escalation, by its vector. */
  predicate Severe(model: Model, e: Exception) {
    !e.software && e.vector in ContributoryVectors(model) + PageVectors(model) + {8}
  }

  lemma ClassVectors(model: Model, e: Exception)
    ensures Severe(model, e) <==> ClassOf(model, e) != Benign
    ensures Severe(model, e) ==>
      && (ClassOf(model, e) == Contributory <==> e.vector in ContributoryVectors(model))
      && (ClassOf(model, e) == PageFault <==> e.vector in PageVectors(model))
      && (ClassOf(model, e) == DoubleFault <==> e.vector == 8)
  {
  }

  /** Benign exceptions do not change what the next one is compared with. */
  lemma {:induction false} PastBenign(model: Model, latest: Class, raised: seq<Exception>, k: nat)
    requires k < |LatestVerdicts(model, latest, raised)|
    requires forall i :: 0 <= i < k ==> !Severe(model, raised[i])
    ensures LatestVerdicts(model, latest, raised)[k] == Table(latest, ClassOf(model, raised[k]))
    decreases k
  {
    if k == 0 {
    } else {
      ClassVectors(model, raised[0]);
      PastBenign(model, latest, raised[1..], k - 1);
    }
  }

  /** In any chain an exception with no severe one before it is handled serially. */
  lemma FirstOfChain(model: Model, raised: seq<Exception>, k: nat)
    requires k < |LatestVerdicts(model, Benign, raised)|
    requires forall i :: 0 <= i < k ==> !Severe(model, raised[i])
    ensures LatestVerdicts(model, Benign, raised)[k] == Serially
  {
    PastBenign(model, Benign, raised, k);
  }

  lemma VerdictsNext(model: Model, latest: Class, raised: seq<Exception>)
    requires |raised| > 0
    ensures var c := ClassOf(model, raised[0]); var verdict := Table(latest, c);
      LatestVerdicts(model, latest, raised) ==
        if verdict == Shutdown then [Shutdown]
        else if |raised| == 1 then [verdict]
        else [verdict] + LatestVerdicts(model, Latest(latest, c), raised[1..])
  {
  }

  /** If `raised[j]` is the latest severe exception before `raised[k]`, the two
    vectors decide, and whether the former became a double fault. */
  lemma {:induction false} PairOfChain(model: Model, latest: Class, raised: seq<Exception>, j: nat, k: nat)
    requires j < k < |LatestVerdicts(model, latest, raised)|
    requires Severe(model, raised[j]) && forall i :: j < i < k ==> !Severe(model, raised[i])
    ensures var verdicts, v, w := LatestVerdicts(model, latest, raised), raised[j].vector, raised[k].vector;
      verdicts[k] ==
        if !Severe(model, raised[k]) then Serially
        else if verdicts[j] == AsDoubleFault || v == 8 then Shutdown
        else if v in ContributoryVectors(model) && w in ContributoryVectors(model) then AsDoubleFault
        else if v in PageVectors(model) && w in ContributoryVectors(model) + PageVectors(model) then AsDoubleFault
        else Serially
    decreases j
  {
    var c := ClassOf(model, raised[0]);
    assert LatestVerdicts(model, latest, raised)[1..] == LatestVerdicts(model, Latest(latest, c), raised[1..]);
    if j == 0 {
      ClassVectors(model, raised[0]);
      ClassVectors(model, raised[k]);
      PastBenign(model, Latest(latest, c), raised[1..], k - 1);
    } else {
      PairOfChain(model, Latest(latest, c), raised[1..], j - 1, k - 1);
    }
  }

  /** What two exceptions lead to, the second during the delivery of the first. */
  lemma PairOutcome(model: Model, raised: seq<Exception>)
    ensures |raised| == 2 && !raised[0].software && !raised[1].software ==>
      var v, w := raised[0].vector, raised[1].vector;
      var contributory, page := ContributoryVectors(model), PageVectors(model);
      OutcomeOf(raised, LatestVerdicts(model, Benign, raised)) ==
        if v == 8 && w in contributory + page + {8} then TripleFault
        else if (v in contributory && w in contributory) || (v in page && w in contributory + page) then Entered(8)
        else Entered(w)
  {
    if |raised| == 2 {
      ClassVectors(model, raised[0]);
      ClassVectors(model, raised[1]);
      assert LatestVerdicts(model, Benign, raised)[1..]
        == LatestVerdicts(model, ClassOf(model, raised[0]), raised[1..]);
    }
  }

  /** A triple fault comes only after an exception that was, or became, a double fault. */
  lemma {:induction false} ShutdownAfterDouble(model: Model, latest: Class, raised: seq<Exception>)
    requires |raised| > 0 && OutcomeOf(raised, LatestVerdicts(model, latest, raised)) == TripleFault
    ensures var verdicts := LatestVerdicts(model, latest, raised);
      || latest == DoubleFault
      || exists k :: 0 <= k < |verdicts| - 1 && (verdicts[k] == AsDoubleFault || raised[k] == Exception(8, false))
    decreases |raised|
  {
    var c, verdicts := ClassOf(model, raised[0]), LatestVerdicts(model, latest, raised);
    if latest == DoubleFault || verdicts[0] == AsDoubleFault || raised[0] == Exception(8, false) {
      assert |verdicts| == 1 ==> latest == DoubleFault;
    } else {
      var rest := LatestVerdicts(model, Latest(latest, c), raised[1..]);
      assert verdicts[1..] == rest;
      ShutdownAfterDouble(model, Latest(latest, c), raised[1..]);
      var k :| 0 <= k < |rest| - 1 && (rest[k] == AsDoubleFault || raised[1..][k] == Exception(8, false));
      var next := k + 1;
      assert verdicts[next] == rest[k] && raised[next] == raised[1..][k];
    }
  }

  /** Contributory, benign, contributory: a double fault, where the table handles
    both pairs serially. */
  lemma MaskedPair(model: Model)
    ensures var chain := [Exception(GP, false), Exception(GP, true), Exception(GP, false)];
      && LatestVerdicts(model, Benign, chain) == [Serially, Serially, AsDoubleFault]
      && TableVerdicts(model, Benign, chain) == [Serially, Serially, Serially]
      && !MaskedRises(model, Benign, Benign, chain)
  {
    var e, i := Exception(GP, false), Exception(GP, true);
    assert [e, i, e][1..] == [i, e] && [i, e][1..] == [e];
    assert LatestVerdicts(model, Contributory, [e]) == [AsDoubleFault];
    assert TableVerdicts(model, Benign, [e]) == [Serially];
    assert LatestVerdicts(model, Contributory, [i, e]) == [Serially, AsDoubleFault];
    assert TableVerdicts(model, Contributory, [i, e]) == [Serially, Serially];
    TableFollowed(model, Benign, Benign, [e, i, e]);
  }

  /** Contributory, benign, page fault: the page fault rises, and the table agrees. */
  lemma MaskedPageFault(model: Model)
    requires model.generation == I386 || model.generation == After386
    ensures var chain := [Exception(GP, false), Exception(GP, true), Exception(PF, false)];
      LatestVerdicts(model, Benign, chain) == TableVerdicts(model, Benign, chain)
  {
    var e, i, p := Exception(GP, false), Exception(GP, true), Exception(PF, false);
    assert [e, i, p][1..] == [i, p] && [i, p][1..] == [p];
    assert MaskedRises(model, Contributory, Benign, [p]);
    assert MaskedRises(model, Contributory, Contributory, [i, p]);
    TableFollowed(model, Benign, Benign, [e, i, p]);
  }

  /** The number of benign exceptions. */
  function BenignCount(model: Model, raised: seq<Exception>): nat {
    if |raised| == 0 then 0
    else (if ClassOf(model, raised[0]) == Benign then 1 else 0) + BenignCount(model, raised[1..])
  }

  /** Exceptions that are not benign rise in class, so a chain has at most four of
    them beside its benign ones. */
  lemma {:induction false} ShortChain(model: Model, latest: Class, raised: seq<Exception>)
    ensures var n := |LatestVerdicts(model, latest, raised)|;
      n <= 4 - Rank(latest) + BenignCount(model, raised[..n])
    decreases |raised|
  {
    if |raised| == 0 {
    } else {
      var c, n := ClassOf(model, raised[0]), |LatestVerdicts(model, latest, raised)|;
      assert raised[..n][1..] == raised[1..][..n - 1];
      if Table(latest, c) != Shutdown {
        assert c != Benign ==> Rank(latest) < Rank(Delivered(latest, c));
        ShortChain(model, Latest(latest, c), raised[1..]);
      }
    }
  }

  /** A chain that is not handled to its end has ended in a triple fault. */
  lemma {:induction false} StopsAtShutdown(model: Model, latest: Class, raised: seq<Exception>)
    requires |LatestVerdicts(model, latest, raised)| < |raised|
    ensures OutcomeOf(raised, LatestVerdicts(model, latest, raised)) == TripleFault
    decreases |raised|
  {
    var c, v := ClassOf(model, raised[0]), LatestVerdicts(model, latest, raised);
    if Table(latest, c) != Shutdown {
      StopsAtShutdown(model, Latest(latest, c), raised[1..]);
      assert v[1..] == LatestVerdicts(model, Latest(latest, c), raised[1..]);
    }
  }

  ghost predicate AllSevere(model: Model, raised: seq<Exception>) {
    forall e :: e in raised ==> ClassOf(model, e) != Benign
  }

  lemma {:induction false} SevereCount(model: Model, raised: seq<Exception>)
    requires AllSevere(model, raised)
    ensures BenignCount(model, raised) == 0
  {
    if |raised| == 0 {
    } else {
      assert raised[0] in raised;
      SevereCount(model, raised[1..]);
    }
  }

  /** At most four nested exceptions, if none of them is benign, whatever the first
    one is. */
  lemma AtMostFourNested(model: Model, raised: seq<Exception>)
    requires |raised| > 0 && AllSevere(model, raised[1..])
    ensures |LatestVerdicts(model, Benign, raised)| <= 5
    ensures |raised| > 5 ==> OutcomeOf(raised, LatestVerdicts(model, Benign, raised)) == TripleFault
  {
    var n := |LatestVerdicts(model, Benign, raised)|;
    ShortChain(model, Benign, raised);
    assert raised[..n][1..] == raised[1..][..n - 1];
    SevereCount(model, raised[1..][..n - 1]);
    if n < |raised| {
      StopsAtShutdown(model, Benign, raised);
    }
  }

  /** The bound is reached. */
  lemma LongestChain(model: Model)
    requires model.generation == I386 || model.generation == After386
    ensures var gp, pf := Exception(GP, false), Exception(PF, false);
      LatestVerdicts(model, Benign, [Exception(GP, true), gp, pf, pf, gp])
        == [Serially, Serially, Serially, AsDoubleFault, Shutdown]
  {
    var gp, pf := Exception(GP, false), Exception(PF, false);
    var chain := [Exception(GP, true), gp, pf, pf, gp];
    assert chain[1..] == [gp, pf, pf, gp] && [gp, pf, pf, gp][1..] == [pf, pf, gp];
    assert [pf, pf, gp][1..] == [pf, gp] && [pf, gp][1..] == [gp];
    assert LatestVerdicts(model, DoubleFault, [gp]) == [Shutdown];
    assert LatestVerdicts(model, PageFault, [pf, gp]) == [AsDoubleFault, Shutdown];
    assert LatestVerdicts(model, Contributory, [pf, pf, gp]) == [Serially, AsDoubleFault, Shutdown];
    assert LatestVerdicts(model, Benign, [gp, pf, pf, gp]) == [Serially, Serially, AsDoubleFault, Shutdown];
  }

  /** Benign exceptions can go on for ever: each delivery may raise the next. */
  lemma {:induction false} BenignChain(model: Model, latest: Class, raised: seq<Exception>)
    requires |raised| > 0 && forall e :: e in raised ==> ClassOf(model, e) == Benign
    ensures var v := LatestVerdicts(model, latest, raised);
      |v| == |raised| && OutcomeOf(raised, v) == Entered(raised[|raised| - 1].vector)
    decreases |raised|
  {
    assert raised[0] in raised;
    if |raised| == 1 {
    } else {
      BenignChain(model, latest, raised[1..]);
      assert LatestVerdicts(model, latest, raised)[1..] == LatestVerdicts(model, latest, raised[1..]);
    }
  }

  class Cpu {
    const model: Model
    /** The class of the latest exception of this step that was not benign. */
    var current: Class

    constructor (model: Model)
      ensures this.model == model && current == Benign
    {
      this.model := model;
      current := Benign;
    }

    method Classify(e: Exception) returns (c: Class)
      ensures c == ClassOf(model, e)
    {
      c := Benign;
      if !e.software {
        match e.vector {
          case 0x09 =>
            if model.generation == I286 || model.generation == I386 {
              c := Contributory;
            }
          case 0x00 => c := Contributory;
          case 0x0A => c := Contributory;
          case 0x0B => c := Contributory;
          case 0x0C => c := Contributory;
          case 0x0D => c := Contributory;
          case 0x15 =>
            if model.shadowStack {
              c := Contributory;
            }
          case 0x0E =>
            if model.generation == I386 || model.generation == After386 {
              c := PageFault;
            }
          case 0x1D =>
            if model.sevEs {
              c := PageFault;
            }
          case 0x08 => c := DoubleFault;
          case _ =>
        }
      }
    }

    /** Raises `raised[0]`; its delivery raises the next one, and so on, until one
      is delivered. The verdicts say how each of them was handled. */
    method Trigger(raised: seq<Exception>) returns (outcome: Outcome, verdicts: seq<Verdict>)
      requires |raised| > 0
      modifies this`current
      ensures verdicts == LatestVerdicts(model, old(current), raised)
      ensures outcome == OutcomeOf(raised, verdicts)
      decreases |raised|
    {
      hide LatestVerdicts;
      hide ClassOf;
      VerdictsNext(model, current, raised);
      var vector, verdict := raised[0].vector, Serially;
      var c := Classify(raised[0]);
      if c != Benign {
        match current {
          case Benign =>
            current := c;
          case Contributory =>
            if Rank(c) <= Rank(current) {
              vector, verdict := DF, AsDoubleFault;
              current := DoubleFault;
            } else {
              current := c;
            }
          case PageFault =>
            if Rank(c) <= Rank(current) {
              vector, verdict := DF, AsDoubleFault;
              current := DoubleFault;
            } else {
              current := c;
            }
          case DoubleFault =>
            return TripleFault, [Shutdown];
        }
      }
      assert verdict == Table(old(current), c) && current == Latest(old(current), c);
      if |raised| == 1 {
        outcome, verdicts := Entered(vector), [verdict];
      } else {
        outcome, verdicts := Trigger(raised[1..]);
        verdicts := [verdict] + verdicts;
      }
    }

    /** One step of the processor during which these exceptions are raised: they
      are handled as the table says if and only if each that follows a benign one
      rises above it, and they are at most four beside the benign ones. */
    method Step(raised: seq<Exception>) returns (outcome: Outcome, verdicts: seq<Verdict>)
      requires |raised| > 0
      modifies this`current
      ensures 0 < |verdicts| <= |raised| && outcome == OutcomeOf(raised, verdicts)
      ensures verdicts == TableVerdicts(model, Benign, raised) <==> MaskedRises(model, Benign, Benign, raised)
      ensures |verdicts| <= 4 + BenignCount(model, raised[..|verdicts|])
      ensures |verdicts| < |raised| ==> outcome == TripleFault
      ensures AllSevere(model, raised[1..]) ==> |verdicts| <= 5
      ensures outcome == TripleFault ==>
        exists k :: 0 <= k < |verdicts| - 1 && (verdicts[k] == AsDoubleFault || raised[k] == Exception(8, false))
      ensures |raised| == 1 ==> outcome == Entered(raised[0].vector)
      ensures |raised| == 2 && !raised[0].software && !raised[1].software ==>
        var contributory := {0x00, 0x0A, 0x0B, 0x0C, 0x0D}
          + (if model.generation == I286 || model.generation == I386 then {0x09} else {})
          + (if model.shadowStack then {0x15} else {});
        var page := (if model.generation == I386 || model.generation == After386 then {0x0E} else {})
          + (if model.sevEs then {0x1D} else {});
        var v, w := raised[0].vector, raised[1].vector;
        outcome ==
          if v == 8 && w in contributory + page + {8} then TripleFault
          else if (v in contributory && w in contributory) || (v in page && w in contributory + page) then Entered(8)
          else Entered(w)
    {
      current := Benign;
      outcome, verdicts := Trigger(raised);
      PairOutcome(model, raised);
      if outcome == TripleFault {
        ShutdownAfterDouble(model, Benign, raised);
      }
      TableFollowed(model, Benign, Benign, raised);
      ShortChain(model, Benign, raised);
      if |verdicts| < |raised| {
        StopsAtShutdown(model, Benign, raised);
      }
      if AllSevere(model, raised[1..]) {
        AtMostFourNested(model, raised);
      }
    }
  }
}
