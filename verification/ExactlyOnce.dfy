/** The QoS 2 exchange for one packet identifier (MQTT 3.1.1, section 4.3.3), whoever plays the two parts.

    A sender and a receiver are joined by two first-in first-out channels. Anything put on a channel may be
    lost, the head of a channel may be ignored, both may resend what they hold at any time, and a cut empties
    both channels while the two ends keep their state. */
module ExactlyOnce {

  /** Where the sender stands: nothing in flight, PUBLISH to be answered by PUBREC, PUBREL to be answered by
      PUBCOMP. */
  datatype Sender<M> = Idle | Sent(m: M) | Released(m: M)

  datatype Down<M> = Pub(m: M) | Rel
  datatype Up = Rec | Comp

  /** `held` is the receiver's memory of the identifier. `accepted` and `delivered` are the histories of what
      was handed to the sender and of what the receiver passed on. */
  datatype Link<M> = Link(snd: Sender<M>, held: bool, down: seq<Down<M>>, up: seq<Up>,
                          accepted: seq<M>, delivered: seq<M>)

  datatype Event<M> =
    | Accept(m: M, put: bool)     // a new message; the first PUBLISH may be lost
    | Resend                      // whatever the sender waits to have answered
    | Answered(put: bool)         // the sender takes the head of `up`; a PUBREL it sends may be lost
    | Received(take: bool, put: bool)  // the receiver takes the head of `down`; its reply may be lost
    | ResendRec                   // the receiver repeats PUBREC for an identifier it holds
    | DropDown
    | DropUp
    | Cut

  predicate Enabled<M(==)>(s: Link<M>, e: Event<M>) {
    match e
    case Accept(_, _) => s.snd.Idle?
    case Answered(_) => s.up != []
    case Received(take, put) => s.down != [] && (s.down[0].Pub? && !s.held && !take ==> !put)
    case ResendRec => s.held
    case DropDown => s.down != []
    case DropUp => s.up != []
    case _ => true
  }

  function Opt<T>(put: bool, x: T): seq<T> { if put then [x] else [] }

  function Apply<M>(s: Link<M>, e: Event<M>): Link<M>
    requires Enabled(s, e)
  {
    match e
    case Accept(m, put) =>
      s.(snd := Sent(m), accepted := s.accepted + [m], down := s.down + Opt(put, Pub(m)))
    case Resend =>
      (match s.snd
       case Idle => s
       case Sent(m) => s.(down := s.down + [Pub(m)])
       case Released(_) => s.(down := s.down + [Rel]))
    case Answered(put) =>
      var t := s.(up := s.up[1..]);
      (match (s.up[0], s.snd)
       case (Rec, Sent(m)) => t.(snd := Released(m), down := s.down + Opt(put, Rel))
       case (Rec, Released(_)) => t.(down := s.down + Opt(put, Rel))
       case (Comp, Released(_)) => t.(snd := Idle)
       case _ => t)
    case Received(take, put) =>
      var t := s.(down := s.down[1..]);
      (match s.down[0]
       case Pub(m) =>
         if s.held then t.(up := s.up + Opt(put, Rec))
         else if take then t.(held := true, delivered := s.delivered + [m], up := s.up + Opt(put, Rec))
         else t
       case Rel => t.(held := false, up := s.up + Opt(put, Comp)))
    case ResendRec => s.(up := s.up + [Rec])
    case DropDown => s.(down := s.down[1..])
    case DropUp => s.(up := s.up[1..])
    case Cut => s.(down := [], up := [])
  }

  // ---- the shape of the channels ----

  ghost predicate Carries<M>(d: seq<Down<M>>, m: M) { forall i :: 0 <= i < |d| && d[i].Pub? ==> d[i].m == m }
  ghost predicate NoPub<M>(d: seq<Down<M>>) { forall i :: 0 <= i < |d| ==> d[i].Rel? }
  ghost predicate NoRel<M>(d: seq<Down<M>>) { forall i :: 0 <= i < |d| ==> d[i].Pub? }
  ghost predicate RelsThenPubs<M>(d: seq<Down<M>>) { forall i, j :: 0 <= i < j < |d| && d[i].Pub? ==> d[j].Pub? }
  ghost predicate PubsThenRels<M>(d: seq<Down<M>>) { forall i, j :: 0 <= i < j < |d| && d[i].Rel? ==> d[j].Rel? }
  ghost predicate NoRec(u: seq<Up>) { forall i :: 0 <= i < |u| ==> u[i].Comp? }
  ghost predicate NoComp(u: seq<Up>) { forall i :: 0 <= i < |u| ==> u[i].Rec? }
  ghost predicate CompsThenRecs(u: seq<Up>) { forall i, j :: 0 <= i < j < |u| && u[i].Rec? ==> u[j].Rec? }
  ghost predicate RecsThenComps(u: seq<Up>) { forall i, j :: 0 <= i < j < |u| && u[i].Comp? ==> u[j].Comp? }

  /** What every run keeps. Old PUBRELs may still precede the PUBLISHes of the current message, and old
      PUBLISHes its PUBRELs, but never in the other order. */
  ghost predicate Inv<M>(s: Link<M>) {
    match s.snd
    case Idle =>
      !s.held && NoPub(s.down) && NoRec(s.up) && s.delivered == s.accepted
    case Sent(m) =>
      && s.accepted != [] && s.accepted[|s.accepted| - 1] == m && Carries(s.down, m)
      && (if s.held
          then NoRel(s.down) && CompsThenRecs(s.up) && s.delivered == s.accepted
          else RelsThenPubs(s.down) && NoRec(s.up) && s.delivered == s.accepted[..|s.accepted| - 1])
    case Released(m) =>
      && s.accepted != [] && s.accepted[|s.accepted| - 1] == m && s.delivered == s.accepted
      && (if s.held
          then Carries(s.down, m) && PubsThenRels(s.down) && NoComp(s.up)
          else NoPub(s.down) && RecsThenComps(s.up))
  }

  ghost predicate Fresh<M>(s: Link<M>) {
    s.snd.Idle? && !s.held && s.down == [] && s.up == [] && s.accepted == [] && s.delivered == []
  }

  lemma FreshInv<M>(s: Link<M>)
    requires Fresh(s)
    ensures Inv(s)
  {}

  /** Every event keeps the invariant. */
  lemma Keeps<M>(s: Link<M>, e: Event<M>)
    requires Inv(s) && Enabled(s, e)
    ensures Inv(Apply(s, e))
  {
    match e
    case Accept(_, _) => KeepsAccept(s, e);
    case Answered(_) => KeepsAnswered(s, e);
    case Received(_, _) => KeepsReceived(s, e);
    case _ =>
  }

  lemma KeepsAccept<M>(s: Link<M>, e: Event<M>)
    requires Inv(s) && Enabled(s, e) && e.Accept?
    ensures Inv(Apply(s, e))
  {
    assert (s.accepted + [e.m])[..|s.accepted|] == s.accepted;
  }

  lemma KeepsAnswered<M>(s: Link<M>, e: Event<M>)
    requires Inv(s) && Enabled(s, e) && e.Answered?
    ensures Inv(Apply(s, e))
  {}

  lemma KeepsReceived<M>(s: Link<M>, e: Event<M>)
    requires Inv(s) && Enabled(s, e) && e.Received?
    ensures Inv(Apply(s, e))
  {
    if s.snd.Sent? && !s.held {
      assert s.accepted[..|s.accepted| - 1] + [s.snd.m] == s.accepted;
    }
  }

  /** What the receiver passed on is what the sender was given, in order and each once, except that the last
      message may not have arrived yet; nothing is missing once the sender is idle again. */
  lemma InOrderOnce<M>(s: Link<M>)
    requires Inv(s)
    ensures s.delivered == s.accepted
         || (s.snd.Sent? && s.accepted != [] && s.delivered == s.accepted[..|s.accepted| - 1])
    ensures s.snd.Idle? || s.snd.Released? ==> s.delivered == s.accepted
  {}
}
