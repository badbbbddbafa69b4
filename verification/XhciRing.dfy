/**
  Cycle-bit rings shared with an xHCI controller (stuos/src/xhci_trb.c). The controller's
  side is that of sections 4.9.2 to 4.9.4 of the xHCI specification.
 */
module XhciRings {

  const TRB_TYPE_LINK: nat := 6
  /** Sixteen-byte requests in one 4096-byte page. */
  const COUNT: nat := 256

  /** A transfer request block; `rest` stands for all fields not named. */
  datatype Trb = Trb(parameter: nat, cycle: bool, toggleCycle: bool, trbType: nat, rest: nat)

  /** A block up to its cycle bit. */
  function Plain(t: Trb): Trb { t.(cycle := false) }

  function Plains(s: seq<Trb>): (p: seq<Trb>)
    ensures |p| == |s| && forall i :: 0 <= i < |s| ==> p[i] == Plain(s[i])
  {
    seq(|s|, i requires 0 <= i < |s| => Plain(s[i]))
  }

  lemma PlainsOfBoth(a: seq<Trb>, b: seq<Trb>)
    ensures Plains(a + b) == Plains(a) + Plains(b)
  {
  }

  /** One side's view of a ring: the shared blocks, and its own position and cycle state. */
  datatype Image = Image(trbs: seq<Trb>, idx: nat, cycle: bool) {

    /** The software side of a command or transfer ring: the last block is a link back to the first. */
    ghost predicate Produces() {
      && 2 <= |trbs| && idx < |trbs| - 1
      && IsLink(trbs[|trbs| - 1])
    }

    function Enqueued(t: Trb): Image
      requires idx + 1 < |trbs|
    {
      var last, next := |trbs| - 1, trbs[idx := t.(cycle := cycle)];
      if idx + 1 == last then Image(next[last := next[last].(cycle := !next[last].cycle)], 0, !cycle)
      else Image(next, idx + 1, cycle)
    }

    /** Is there a block for this side? */
    predicate Ready()
      requires idx < |trbs|
    {
      trbs[idx].cycle == cycle
    }

    function Dequeued(): Image
      requires idx < |trbs|
    {
      if idx + 1 == |trbs| then Image(trbs, 0, !cycle) else Image(trbs, idx + 1, cycle)
    }
  }

  predicate IsLink(t: Trb) {
    t.trbType == TRB_TYPE_LINK && t.toggleCycle
  }

  class Ring {
    const trbs: array<Trb>
    const count: nat
    var idx: nat
    var ringCycleState: bool

    ghost predicate Valid()
      reads this
    {
      trbs.Length == count && 2 <= count && idx < count
    }

    ghost function View(): Image
      reads this, trbs
    {
      Image(trbs[..], idx, ringCycleState)
    }

    /** A zeroed page with a link at its end. */
    constructor (trbsPhys: nat)
      ensures Valid() && fresh(trbs) && count == COUNT
      ensures View().Produces() && idx == 0 && ringCycleState
      ensures forall k :: 0 <= k < count ==> !trbs[k].cycle
      ensures trbs[count - 1].parameter == trbsPhys
    {
      trbs := new Trb[COUNT](_ => Trb(0, false, false, 0, 0));
      count, idx, ringCycleState := COUNT, 0, true;
      new;
      trbs[count - 1] := Trb(trbsPhys, false, true, TRB_TYPE_LINK, 0);
    }

    method Enqueue(trb: Trb)
      requires Valid() && idx + 1 < count
      modifies this`idx, this`ringCycleState, trbs
      ensures Valid() && idx + 1 < count && View() == old(View()).Enqueued(trb)
    {
      trbs[idx] := trb.(cycle := ringCycleState);
      idx := idx + 1;
      if idx == count - 1 {
        trbs[idx] := trbs[idx].(cycle := !trbs[idx].cycle);
        idx := 0;
        ringCycleState := !ringCycleState;
      }
      assert View().trbs == old(View()).Enqueued(trb).trbs;
    }

    /** -1, and nothing else, if there is no block. */
    method Dequeue(trbBefore: Trb) returns (code: int, trbOut: Trb)
      requires Valid()
      modifies this`idx, this`ringCycleState
      ensures Valid()
      ensures code == if old(View()).Ready() then 0 else -1
      ensures old(View()).Ready() ==> trbOut == old(trbs[idx]) && View() == old(View()).Dequeued()
      ensures !old(View()).Ready() ==> trbOut == trbBefore && View() == old(View())
    {
      if trbs[idx].cycle != ringCycleState {
        return -1, trbBefore;
      }
      trbOut := trbs[idx];
      idx := idx + 1;
      if idx == count {
        idx := 0;
        ringCycleState := !ringCycleState;
      }
      code := 0;
    }
  }

  // --- A transfer ring and the controller that consumes it ---

  /**
    The shared blocks, software's enqueue position and cycle state, the controller's
    dequeue position and cycle state, and all blocks handed in and taken out so far.
   */
  datatype Transfer = Transfer(soft: Image, cIdx: nat, ccs: bool, sent: seq<Trb>, seen: seq<Trb>) {

    /** How many blocks there are besides the link. */
    function Slots(): int { |soft.trbs| - 1 }

    /** Blocks handed in but not taken out. */
    function Outstanding(): int { |sent| - |seen| }

    /** The blocks from the controller's position to software's, round the end if need be. */
    function Pending(): seq<Trb>
      requires Shaped()
    {
      if Parked() && soft.cycle == ccs then soft.trbs[..Slots()]
      else if soft.cycle == ccs then soft.trbs[cIdx..soft.idx]
      else soft.trbs[cIdx..Slots()] + soft.trbs[..soft.idx]
    }

    /** The controller stands at the link and has not followed it yet. */
    predicate Parked() { cIdx == Slots() }

    /**
      Blocks up to software's position carry its cycle state, those behind it and the link
      the opposite; what is pending is what was sent and not seen, in order.
     */
    ghost predicate Ok() {
      && Shaped()
      && |seen| <= |sent| && seen == sent[..|seen|]
      && Plains(Pending()) == sent[|seen|..]
    }

    ghost predicate Shaped() {
      && soft.Produces() && cIdx <= Slots()
      && (forall k :: 0 <= k < Slots() ==> soft.trbs[k].cycle == (if k < soft.idx then soft.cycle else !soft.cycle))
      && (forall k :: 0 <= k < Slots() ==> soft.trbs[k].trbType != TRB_TYPE_LINK)
      && soft.trbs[Slots()].cycle == !soft.cycle
      && (soft.cycle == ccs ==> if Parked() then soft.idx == 0 else cIdx <= soft.idx)
      && (soft.cycle != ccs ==> soft.idx <= cIdx)
    }

    /** Software hands in a block. */
    function Send(t: Trb): Transfer
      requires soft.idx + 1 < |soft.trbs|
    {
      this.(soft := soft.Enqueued(t), sent := sent + [Plain(t)])
    }

    /** The controller looks at the block at its position: not its own, a link to follow, or one to take. */
    function Look(): Transfer
      requires cIdx < |soft.trbs|
    {
      var t := soft.trbs[cIdx];
      if t.cycle != ccs then this
      else if t.trbType == TRB_TYPE_LINK then this.(cIdx := 0, ccs := if t.toggleCycle then !ccs else ccs)
      else this.(cIdx := cIdx + 1, seen := seen + [Plain(t)])
    }

    /** A controller that follows a link as soon as it stands at it. */
    function LookAndFollow(): Transfer
      requires 0 < |soft.trbs| && cIdx < |soft.trbs|
               && (cIdx + 1 == |soft.trbs| ==> soft.trbs[cIdx].trbType == TRB_TYPE_LINK)
    {
      var s := Look();
      if s.Parked() then s.Look() else s
    }

    /** The controller is at a link it takes for not yet valid, with the ring full. */
    predicate Stuck() {
      Parked() && Outstanding() == Slots()
    }
  }

  /** Where both sides start. */
  lemma StartOk(soft: Image)
    requires soft.Produces() && soft.idx == 0 && soft.cycle && forall k :: 0 <= k < |soft.trbs| ==> !soft.trbs[k].cycle
    requires forall k :: 0 <= k < |soft.trbs| - 1 ==> soft.trbs[k].trbType != TRB_TYPE_LINK
    ensures Transfer(soft, 0, true, [], []).Ok()
  {
  }

  /** How many blocks are outstanding, by the two positions. */
  lemma OutstandingIs(s: Transfer)
    requires s.Ok()
    ensures s.Outstanding() == |s.Pending()| <= s.Slots()
    ensures s.Stuck() <==> s.Parked() && s.soft.cycle == s.ccs
  {
  }

  lemma SlotsPositive(s: Transfer)
    requires s.Ok()
    ensures 0 < s.Slots() && s.soft.idx + 1 < |s.soft.trbs| && s.cIdx < |s.soft.trbs|
    ensures s.Parked() ==> s.soft.trbs[s.cIdx].trbType == TRB_TYPE_LINK
  {
  }

  /** A ring not full takes one more block, behind all others. */
  lemma SendOk(s: Transfer, t: Trb)
    requires s.Ok() && s.Outstanding() < s.Slots() && t.trbType != TRB_TYPE_LINK
    ensures s.Send(t).Ok()
  {
    hide Transfer.Pending, Plains;
    OutstandingIs(s);
    PendingSent(s, t);
    PlainsOfBoth(s.Pending(), [t.(cycle := s.soft.cycle)]);
    PlainsOfOne(t.(cycle := s.soft.cycle));
    assert s.Send(t).sent[|s.seen|..] == s.sent[|s.seen|..] + [Plain(t)];
  }

  lemma PendingSent(s: Transfer, t: Trb)
    requires s.Shaped() && |s.Pending()| < s.Slots() && t.trbType != TRB_TYPE_LINK
    ensures s.Send(t).Shaped() && s.Send(t).Pending() == s.Pending() + [t.(cycle := s.soft.cycle)]
  {
    SentShape(s, t);
    hide Transfer.Send;
    var b, b', e := s.soft.trbs, s.Send(t).soft.trbs, t.(cycle := s.soft.cycle);
    if s.soft.cycle == s.ccs {
      PutBehind(b, b', s.cIdx, s.soft.idx, e);
    } else {
      PutBehind(b, b', 0, s.soft.idx, e);
      assert b'[s.cIdx..s.Slots()] == b[s.cIdx..s.Slots()];
    }
  }

  lemma PutBehind(b: seq<Trb>, b': seq<Trb>, lo: nat, i: nat, e: Trb)
    requires lo <= i < |b| == |b'| && b'[i] == e && forall k :: lo <= k < i ==> b'[k] == b[k]
    ensures b'[lo..i + 1] == b[lo..i] + [e]
  {
  }

  lemma SentShape(s: Transfer, t: Trb)
    requires s.Shaped() && |s.Pending()| < s.Slots() && t.trbType != TRB_TYPE_LINK
    ensures s.Send(t).Shaped()
    ensures s.Send(t).soft.idx == if s.soft.idx + 1 == s.Slots() then 0 else s.soft.idx + 1
    ensures s.Send(t).soft.cycle == if s.soft.idx + 1 == s.Slots() then !s.soft.cycle else s.soft.cycle
    ensures forall k :: 0 <= k < s.Slots() ==>
              s.Send(t).soft.trbs[k] == if k == s.soft.idx then t.(cycle := s.soft.cycle) else s.soft.trbs[k]
    ensures !s.Parked() || s.soft.cycle != s.ccs
  {
  }

  /** The controller takes the oldest block, or follows the link, or has nothing to take. */
  lemma LookOk(s: Transfer)
    requires s.Ok()
    ensures s.Look().Ok()
    ensures s.Look() == s || (s.Parked() && s.Look().seen == s.seen && !s.Look().Parked())
            || (!s.Parked() && s.Outstanding() > 0 && s.Look().seen == s.seen + [s.sent[|s.seen|]])
  {
    hide Plains;
    PendingLooked(s);
    if s.Look() != s && !s.Parked() {
      PlainsOfBoth([s.soft.trbs[s.cIdx]], s.Look().Pending());
      PlainsOfOne(s.soft.trbs[s.cIdx]);
      assert s.sent[|s.seen|..][0] == s.sent[|s.seen|];
      assert s.sent[|s.seen| + 1..] == s.sent[|s.seen|..][1..];
    }
  }

  lemma PlainsOfOne(t: Trb)
    ensures Plains([t]) == [Plain(t)]
  {
  }

  lemma PendingLooked(s: Transfer)
    requires s.Shaped()
    ensures s.Look().Shaped()
    ensures s.Look() == s || (s.Parked() && s.Look() == s.(cIdx := 0, ccs := !s.ccs)
            && s.Look().Pending() == s.Pending())
            || (!s.Parked() && s.Look().seen == s.seen + [Plain(s.soft.trbs[s.cIdx])] && s.Look().sent == s.sent
                && s.Pending() == [s.soft.trbs[s.cIdx]] + s.Look().Pending())
  {
    hide Transfer.Pending;
    if s.Look() == s {
    } else if s.Parked() {
      LinkFollowed(s);
    } else {
      BlockTaken(s);
    }
  }

  lemma LinkFollowed(s: Transfer)
    requires s.Shaped() && s.Look() != s && s.Parked()
    ensures s.Look() == s.(cIdx := 0, ccs := !s.ccs) && s.Look().Shaped() && s.Look().Pending() == s.Pending()
  {
  }

  lemma BlockTaken(s: Transfer)
    requires s.Shaped() && s.Look() != s && !s.Parked()
    ensures s.Look().seen == s.seen + [Plain(s.soft.trbs[s.cIdx])] && s.Look().sent == s.sent
    ensures s.Look().Shaped() && s.Pending() == [s.soft.trbs[s.cIdx]] + s.Look().Pending()
  {
    BlockTakenShape(s);
    if s.soft.cycle == s.ccs {
      assert s.soft.trbs[s.cIdx..s.soft.idx] == [s.soft.trbs[s.cIdx]] + s.soft.trbs[s.cIdx + 1..s.soft.idx];
    } else {
      assert s.soft.trbs[s.cIdx..s.Slots()] == [s.soft.trbs[s.cIdx]] + s.soft.trbs[s.cIdx + 1..s.Slots()];
    }
  }

  lemma BlockTakenShape(s: Transfer)
    requires s.Shaped() && s.Look() != s && !s.Parked()
    ensures s.Look() == s.(cIdx := s.cIdx + 1, seen := s.seen + [Plain(s.soft.trbs[s.cIdx])])
    ensures s.Look().Shaped() && (s.soft.cycle == s.ccs ==> s.cIdx < s.soft.idx)
  {
  }

  /** The one way to stall: a controller waiting at the link while the whole ring is filled again. */
  lemma StuckExactly(s: Transfer)
    requires s.Ok() && 0 < s.Outstanding()
    ensures s.Look() == s <==> s.Stuck()
  {
  }

  // --- Whole runs ---

  datatype Action = HandIn(t: Trb) | LookOnce

  /**
    One action. Software holds a block back while `limit` are outstanding; the controller
    follows links at once (`eager`) or at its next look.
   */
  function Step(s: Transfer, a: Action, eager: bool, limit: int): Transfer
    requires s.Ok()
  {
    match a
    case HandIn(t) => if s.Outstanding() < limit && t.trbType != TRB_TYPE_LINK then s.Send(t) else s
    case LookOnce => if eager then s.LookAndFollow() else s.Look()
  }

  /** With an eager controller all slots may be outstanding, with any other all but one. */
  function Limit(s: Transfer, eager: bool): int {
    if eager then s.Slots() else s.Slots() - 1
  }

  ghost predicate Running(s: Transfer, eager: bool) {
    s.Ok() && !s.Stuck() && (eager ==> !s.Parked())
  }

  lemma StepRuns(s: Transfer, a: Action, eager: bool)
    requires Running(s, eager)
    ensures var s' := Step(s, a, eager, Limit(s, eager));
            && Running(s', eager) && s'.Slots() == s.Slots() && s.sent <= s'.sent && s.seen <= s'.seen
  {
    hide Transfer.Shaped, Transfer.Pending, Plains, Image.Enqueued;
    SlotsPositive(s);
    LookOk(s);
    SlotsPositive(s.Look());
    match a
    case HandIn(t) =>
      if s.Outstanding() < Limit(s, eager) && t.trbType != TRB_TYPE_LINK {
        SendOk(s, t);
        SentSlots(s, t);
      }
    case LookOnce =>
      LookOk(s.Look());
      StandsAtLink(s);
  }

  lemma SentSlots(s: Transfer, t: Trb)
    requires s.Ok() && s.soft.idx + 1 < |s.soft.trbs|
    ensures s.Send(t).Slots() == s.Slots() && s.Send(t).Outstanding() == s.Outstanding() + 1
  {
  }

  /** Having taken the last block, the controller finds the link valid. */
  lemma StandsAtLink(s: Transfer)
    requires s.Ok()
    ensures !s.Parked() && s.Look().Parked() ==> !s.Look().Look().Parked() && s.Look().Look().seen == s.Look().seen
    ensures !s.Stuck() ==> !s.Look().Stuck()
  {
    SlotsPositive(s);
    OutstandingIs(s);
    LookOk(s);
    OutstandingIs(s.Look());
  }

  ghost function Run(s: Transfer, acts: seq<Action>, eager: bool): Transfer
    requires Running(s, eager)
    decreases |acts|
  {
    if acts == [] then s else
      StepRuns(s, acts[0], eager);
      Run(Step(s, acts[0], eager, Limit(s, eager)), acts[1..], eager)
  }

  /**
    Over any run, round the ring as often as it may be, the controller has seen exactly
    what was handed in first, in order.
   */
  lemma {:induction false} RunInOrder(s: Transfer, acts: seq<Action>, eager: bool)
    requires Running(s, eager)
    ensures var e := Run(s, acts, eager); Running(e, eager) && e.seen <= e.sent && s.sent <= e.sent && s.seen <= e.seen
    decreases |acts|
  {
    hide Transfer.Shaped;
    if acts == [] {
    } else {
      StepRuns(s, acts[0], eager);
      RunInOrder(Step(s, acts[0], eager, Limit(s, eager)), acts[1..], eager);
    }
  }

  function LookTimes(s: Transfer, k: nat): Transfer
    requires s.Ok()
    decreases k
  {
    if k == 0 then s else
      LookOk(s);
      LookTimes(s.Look(), k - 1)
  }

  /** Left to look, a controller that is not stuck sees everything. */
  lemma {:induction false} CatchesUp(s: Transfer, k: nat)
    requires s.Ok() && !s.Stuck() && 2 * s.Outstanding() + (if s.Parked() then 1 else 0) <= k
    ensures LookTimes(s, k).seen == s.sent
    decreases k
  {
    hide Transfer.Shaped;
    SlotsPositive(s);
    if s.Outstanding() == 0 {
      NothingMore(s, k);
    } else {
      LookOk(s);
      StuckExactly(s);
      StandsAtLink(s);
      CatchesUp(s.Look(), k - 1);
    }
  }

  lemma {:induction false} NothingMore(s: Transfer, k: nat)
    requires s.Ok() && s.Outstanding() == 0
    ensures LookTimes(s, k).seen == s.seen == s.sent
    decreases k
  {
    hide Transfer.Shaped;
    SlotsPositive(s);
    if k > 0 {
      LookOk(s);
      NothingMore(s.Look(), k - 1);
    }
  }

  // --- The stall ---

  lemma {:induction false} StuckForever(s: Transfer, k: nat)
    requires s.Ok() && s.Stuck()
    ensures LookTimes(s, k) == s && 0 < s.Outstanding()
    decreases k
  {
    hide Transfer.Shaped;
    SlotsPositive(s);
    StuckExactly(s);
    if k > 0 {
      StuckForever(s, k - 1);
    }
  }

  function SendTimes(s: Transfer, t: Trb, k: nat): Transfer
    requires s.Ok() && s.Outstanding() + k <= s.Slots() && t.trbType != TRB_TYPE_LINK
    decreases k
  {
    if k == 0 then s else
      SendOk(s, t);
      SendTimes(s.Send(t), t, k - 1)
  }

  lemma {:induction false} SendTimesIs(s: Transfer, t: Trb, k: nat)
    requires s.Ok() && s.Outstanding() + k <= s.Slots() && t.trbType != TRB_TYPE_LINK
    ensures var e := SendTimes(s, t, k);
            && e.Ok() && e.Outstanding() == s.Outstanding() + k
            && e.cIdx == s.cIdx && e.Slots() == s.Slots() && e.seen == s.seen
    decreases k
  {
    hide Transfer.Shaped;
    SlotsPositive(s);
    if k > 0 {
      SendOk(s, t);
      SendTimesIs(s.Send(t), t, k - 1);
    }
  }

  lemma {:induction false} LookTimesIs(s: Transfer, k: nat)
    requires s.Ok() && k <= s.Outstanding() && s.cIdx + k <= s.Slots()
    ensures var e := LookTimes(s, k);
            e.Ok() && e.Outstanding() == s.Outstanding() - k && e.cIdx == s.cIdx + k && e.Slots() == s.Slots()
    decreases k
  {
    hide Transfer.Ok, Transfer.Shaped;
    SlotsPositive(s);
    if k > 0 {
      LookOk(s);
      StuckExactly(s);
      LookTimesIs(s.Look(), k - 1);
    }
  }

  /**
    The stall is reachable: fill the ring, let the controller take everything and wait at
    the link, fill the ring again. Every block of the second filling is lost to it.
   */
  lemma StallReachable(s: Transfer, t: Trb)
    requires s.Ok() && s.cIdx == 0 && s.sent == s.seen && t.trbType != TRB_TYPE_LINK
    ensures var n := s.Slots();
            && SendTimes(s, t, n).Ok() && LookTimes(SendTimes(s, t, n), n).Ok()
            && var emptied := LookTimes(SendTimes(s, t, n), n);
            && emptied.Outstanding() == 0 && emptied.Slots() == n
            && var e := SendTimes(emptied, t, n);
            && e.Ok() && e.Stuck() && forall k: nat :: LookTimes(e, k) == e
  {
    hide Transfer.Shaped, Transfer.Ok, SendTimes, LookTimes;
    var n := s.Slots();
    SlotsPositive(s);
    SendTimesIs(s, t, n);
    LookTimesIs(SendTimes(s, t, n), n);
    var emptied := LookTimes(SendTimes(s, t, n), n);
    SendTimesIs(emptied, t, n);
    forall k: nat
      ensures LookTimes(SendTimes(emptied, t, n), k) == SendTimes(emptied, t, n)
    {
      StuckForever(SendTimes(emptied, t, n), k);
    }
  }

  // --- An event ring and the controller that produces into it ---

  /**
    Software's side is the image; the controller writes at `pIdx` with its cycle state `pcs`
    and wraps at the end of the segment. There is no link; the one `create_ring` leaves at
    the end is overwritten like any other block.
   */
  datatype Events = Events(soft: Image, pIdx: nat, pcs: bool, sent: seq<Trb>, got: seq<Trb>) {

    function Outstanding(): int { |sent| - |got| }

    ghost predicate Shaped() {
      && 0 < |soft.trbs| && soft.idx < |soft.trbs| && pIdx < |soft.trbs|
      && (forall k :: 0 <= k < |soft.trbs| ==> soft.trbs[k].cycle == (if k < pIdx then pcs else !pcs))
      && (if soft.cycle == pcs then soft.idx <= pIdx else pIdx <= soft.idx)
    }

    function Pending(): seq<Trb>
      requires Shaped()
    {
      if soft.cycle == pcs then soft.trbs[soft.idx..pIdx] else soft.trbs[soft.idx..] + soft.trbs[..pIdx]
    }

    ghost predicate Ok() {
      && Shaped()
      && |got| <= |sent| && got == sent[..|got|] && Pending() == sent[|got|..]
    }

    /** The controller writes an event. */
    function Write(t: Trb): Events
      requires pIdx < |soft.trbs|
    {
      var e := t.(cycle := pcs);
      var written := soft.(trbs := soft.trbs[pIdx := e]);
      if pIdx + 1 == |soft.trbs| then Events(written, 0, !pcs, sent + [e], got)
      else Events(written, pIdx + 1, pcs, sent + [e], got)
    }

    /** Software dequeues. */
    function Dequeue(): Events
      requires soft.idx < |soft.trbs|
    {
      if soft.Ready() then Events(soft.Dequeued(), pIdx, pcs, sent, got + [soft.trbs[soft.idx]]) else this
    }
  }

  /** The ring as `create_ring` leaves it, before the controller has written anything. */
  lemma EventsStart(soft: Image)
    requires 0 < |soft.trbs| && soft.idx == 0 && soft.cycle && forall k :: 0 <= k < |soft.trbs| ==> !soft.trbs[k].cycle
    ensures Events(soft, 0, true, [], []).Ok()
  {
  }

  lemma EventWritten(s: Events, t: Trb)
    requires s.Ok() && s.Outstanding() < |s.soft.trbs|
    ensures s.Write(t).Ok()
  {
    EventPending(s, t);
    assert s.Write(t).sent[|s.got|..] == s.sent[|s.got|..] + [t.(cycle := s.pcs)];
  }

  lemma EventPending(s: Events, t: Trb)
    requires s.Shaped() && |s.Pending()| < |s.soft.trbs|
    ensures s.Write(t).Shaped() && s.Write(t).Pending() == s.Pending() + [t.(cycle := s.pcs)]
  {
  }

  /** `dequeue_ring` reports empty only when empty, and otherwise returns the oldest event written. */
  lemma EventDequeued(s: Events)
    requires s.Ok()
    ensures s.soft.Ready() <==> 0 < s.Outstanding()
    ensures s.Dequeue().Ok()
    ensures s.soft.Ready() ==>
              s.soft.trbs[s.soft.idx] == s.sent[|s.got|] && s.Dequeue().got == s.got + [s.sent[|s.got|]]
  {
    hide Events.Shaped, Events.Pending;
    EventTaken(s);
    if s.soft.Ready() {
      assert s.sent[|s.got|..][0] == s.sent[|s.got|];
      assert s.sent[|s.got| + 1..] == s.sent[|s.got|..][1..];
    }
  }

  lemma EventTaken(s: Events)
    requires s.Shaped()
    ensures s.soft.Ready() <==> 0 < |s.Pending()|
    ensures s.Dequeue().Shaped()
    ensures s.soft.Ready() ==> s.Pending() == [s.soft.trbs[s.soft.idx]] + s.Dequeue().Pending()
  {
    if s.soft.Ready() {
      OldestTaken(s);
    }
  }

  lemma OldestTaken(s: Events)
    requires s.Shaped() && s.soft.Ready()
    ensures s.Dequeue().Shaped() && s.Pending() == [s.soft.trbs[s.soft.idx]] + s.Dequeue().Pending()
  {
    TakenShaped(s);
    var i, b := s.soft.idx, s.soft.trbs;
    if s.soft.cycle == s.pcs {
      assert s.Pending() == b[i..s.pIdx] == [b[i]] + b[i + 1..s.pIdx];
    } else if i + 1 < |b| {
      assert b[i..] == [b[i]] + b[i + 1..];
    } else {
      assert b[i..] == [b[i]] && s.Dequeue().Pending() == b[0..s.pIdx] == b[..s.pIdx];
    }
  }

  lemma TakenShaped(s: Events)
    requires s.Shaped() && s.soft.Ready()
    ensures s.Dequeue().Shaped()
    ensures s.Dequeue().soft.trbs == s.soft.trbs && s.Dequeue().pIdx == s.pIdx && s.Dequeue().pcs == s.pcs
    ensures s.Dequeue().soft.idx == if s.soft.idx + 1 < |s.soft.trbs| then s.soft.idx + 1 else 0
    ensures s.Dequeue().soft.cycle == if s.soft.idx + 1 < |s.soft.trbs| then s.soft.cycle else !s.soft.cycle
    ensures s.soft.cycle == s.pcs ==> s.soft.idx < s.pIdx
  {
  }

  datatype EventAction = WriteEvent(t: Trb) | Poll

  /** A controller writes only while there is room. */
  function EventStep(s: Events, a: EventAction): Events
    requires s.Ok()
  {
    match a
    case WriteEvent(t) => if s.Outstanding() < |s.soft.trbs| then s.Write(t) else s
    case Poll => s.Dequeue()
  }

  ghost function EventRun(s: Events, acts: seq<EventAction>): Events
    requires s.Ok()
    decreases |acts|
  {
    if acts == [] then s else
      EventStepOk(s, acts[0]);
      EventRun(EventStep(s, acts[0]), acts[1..])
  }

  lemma EventStepOk(s: Events, a: EventAction)
    requires s.Ok()
    ensures EventStep(s, a).Ok() && s.sent <= EventStep(s, a).sent && s.got <= EventStep(s, a).got
  {
    hide Events.Shaped, Events.Pending;
    EventDequeued(s);
    if a.WriteEvent? && s.Outstanding() < |s.soft.trbs| {
      EventWritten(s, a.t);
    }
  }

  /** Over any run software gets exactly the events written, in order. */
  lemma {:induction false} EventsInOrder(s: Events, acts: seq<EventAction>)
    requires s.Ok()
    ensures var e := EventRun(s, acts); e.Ok() && e.got <= e.sent && s.sent <= e.sent && s.got <= e.got
    decreases |acts|
  {
    hide Events.Shaped, Events.Pending;
    if acts == [] {
    } else {
      EventStepOk(s, acts[0]);
      EventsInOrder(EventStep(s, acts[0]), acts[1..]);
    }
  }

  /** So it is from the start: what software has got of a fresh ring is a prefix of what was written. */
  lemma FreshEventsInOrder(soft: Image, acts: seq<EventAction>)
    requires 0 < |soft.trbs| && soft.idx == 0 && soft.cycle && forall k :: 0 <= k < |soft.trbs| ==> !soft.trbs[k].cycle
    ensures Events(soft, 0, true, [], []).Ok()
    ensures var e := EventRun(Events(soft, 0, true, [], []), acts); e.Ok() && e.got <= e.sent
  {
    EventsStart(soft);
    EventsInOrder(Events(soft, 0, true, [], []), acts);
  }
}
