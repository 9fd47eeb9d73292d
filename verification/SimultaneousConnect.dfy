/** Two peers that dial each other at once: the rule both ends apply, the connection table, and
    every interleaving of the two nodes. */
module SimultaneousConnect {
  import opened Wrappers

  type Fingerprint = string

  /** Go's `<` on strings. */
  predicate Less(a: Fingerprint, b: Fingerprint)
  {
    if b == [] then false
    else if a == [] then true
    else if a[0] != b[0] then a[0] < b[0]
    else Less(a[1..], b[1..])
  }

  /** The first difference is at k, and a is smaller there. */
  predicate SmallerAt(a: Fingerprint, b: Fingerprint, k: nat)
  {
    k < |a| && k < |b| && a[..k] == b[..k] && a[k] < b[k]
  }

  lemma SmallerInRest(a: Fingerprint, b: Fingerprint, k: nat)
    requires a != [] && b != [] && a[0] == b[0]
    ensures SmallerAt(a, b, k + 1) <==> SmallerAt(a[1..], b[1..], k)
    ensures !SmallerAt(a, b, 0)
  {
    if k + 1 <= |a| && k + 1 <= |b| {
      assert a[..k + 1] == [a[0]] + a[1..][..k] && b[..k + 1] == [b[0]] + b[1..][..k];
      assert a[..k + 1][1..] == a[1..][..k] && b[..k + 1][1..] == b[1..][..k];
    }
  }

  lemma SmallerAfterHead(a: Fingerprint, b: Fingerprint, k: nat)
    requires SmallerAt(a, b, k) && k > 0
    ensures a[0] == b[0]
  {
    assert a[..k][0] == b[..k][0];
  }

  /** The order of dictionaries: a proper prefix comes first, and otherwise the first difference decides. */
  lemma {:induction false} LessIsLexicographic(a: Fingerprint, b: Fingerprint)
    ensures Less(a, b) <==> a < b || exists k: nat :: SmallerAt(a, b, k)
  {
    if a != [] && b != [] {
      if a[0] == b[0] {
        LessIsLexicographic(a[1..], b[1..]);
        assert a == [a[0]] + a[1..] && b == [b[0]] + b[1..];
        forall k: nat { SmallerInRest(a, b, k); }
        hide SmallerAt;
        if k: nat :| SmallerAt(a, b, k) { assert SmallerAt(a[1..], b[1..], k - 1); }
      } else {
        assert SmallerAt(a, b, 0) <==> a[0] < b[0];
        hide SmallerAt;
        forall k: nat | SmallerAt(a, b, k) ensures k == 0 { if k > 0 { SmallerAfterHead(a, b, k); } }
      }
    }
  }

  lemma {:induction false} LessIsStrictOrder(a: Fingerprint, b: Fingerprint)
    ensures !(Less(a, b) && Less(b, a))
    ensures Less(a, b) || Less(b, a) <==> a != b
  {
    if a != [] && b != [] {
      LessIsStrictOrder(a[1..], b[1..]);
      assert a == [a[0]] + a[1..] && b == [b[0]] + b[1..];
    }
  }

  lemma {:induction false} LessIsTransitive(a: Fingerprint, b: Fingerprint, c: Fingerprint)
    requires Less(a, b) && Less(b, c)
    ensures Less(a, c)
  {
    if a != [] && a[0] == b[0] == c[0] { LessIsTransitive(a[1..], b[1..], c[1..]); }
  }

  function DialerOf(outbound: bool, self: Fingerprint, peer: Fingerprint): Fingerprint
  {
    if outbound then self else peer
  }

  /** Whether a node gives up its connection to a peer for a new one: the new one's dialer is smaller. */
  predicate Supersedes(self: Fingerprint, peer: Fingerprint, newOutbound: bool, oldOutbound: bool)
  {
    Less(DialerOf(newOutbound, self, peer), DialerOf(oldOutbound, self, peer))
  }

  // ---- the table of live connections, for any kind of connection

  /** A new connection to fp is kept if there is none, or if its dialer is smaller. */
  function AfterRegister<C>(conns: map<Fingerprint, C>, fp: Fingerprint, c: C, keepNew: bool): map<Fingerprint, C>
  {
    if fp !in conns || keepNew then conns[fp := c] else conns
  }

  /** A connection that ends takes its own entry away, and nobody else's. */
  function AfterCleanup<C(==)>(conns: map<Fingerprint, C>, fp: Fingerprint, c: C): map<Fingerprint, C>
  {
    if fp in conns && conns[fp] == c then conns - {fp} else conns
  }

  /** Both orders of registering two connections to one peer leave the same survivor exactly when
      different sides dialed them; two connections dialed by the same side disagree. */
  lemma OrderIrrelevant<C>(fp: Fingerprint, x: C, dx: Fingerprint, y: C, dy: Fingerprint)
    requires x != y
    ensures var xThenY := AfterRegister(AfterRegister(map[], fp, x, false), fp, y, Less(dy, dx));
            var yThenX := AfterRegister(AfterRegister(map[], fp, y, false), fp, x, Less(dx, dy));
            && (xThenY == yThenX <==> dx != dy)
            && (dx != dy ==> xThenY[fp] == yThenX[fp] == if Less(dx, dy) then x else y)
  {
    LessIsStrictOrder(dx, dy);
    var a, b := map[fp := x], map[fp := y];
    assert a[fp] != b[fp];
  }

  // ---- the node

  class Conn {
    const fp: Fingerprint
    const outbound: bool
    var closed: bool
    var linkClosed: bool

    constructor (fp: Fingerprint, outbound: bool)
      ensures this.fp == fp && this.outbound == outbound && !closed && !linkClosed
    {
      this.fp, this.outbound := fp, outbound;
      closed, linkClosed := false, false;
    }

    function Dialer(self: Fingerprint): Fingerprint { DialerOf(outbound, self, fp) }

    method CloseLink()
      modifies this`linkClosed
      ensures linkClosed
    {
      linkClosed := true;
    }

    /** Closing twice is closing once. */
    method Close()
      modifies this
      ensures closed
      ensures linkClosed == (!old(closed) || old(linkClosed))
    {
      if closed {
        return;
      }
      closed := true;
      CloseLink();
    }
  }

  class App {
    const self: Fingerprint
    var conns: map<Fingerprint, Conn>

    /** Every entry is filed under its own peer. */
    ghost predicate Valid()
      reads this
    {
      forall fp :: fp in conns ==> conns[fp].fp == fp
    }

    constructor (self: Fingerprint)
      ensures Valid() && this.self == self && conns == map[]
    {
      this.self := self;
      conns := map[];
    }

    method Register(c: Conn) returns (kept: bool)
      requires Valid() && c !in conns.Values
      modifies this`conns, conns.Values
      ensures Valid()
      ensures var unknown := c.fp !in old(conns);
              var keepNew := !unknown && Supersedes(self, c.fp, c.outbound, old(conns)[c.fp].outbound);
              && kept == (unknown || keepNew)
              && conns == AfterRegister(old(conns), c.fp, c, keepNew)
              && (keepNew ==> old(conns)[c.fp].closed)
      ensures forall d :: d in old(conns).Values && (!kept || d.fp != c.fp) ==> unchanged(d)
      ensures c.fp in old(conns) ==>
                var other := if kept then old(conns)[c.fp] else c;
                conns[c.fp] == (if kept then c else old(conns)[c.fp])
                && !Less(other.Dialer(self), conns[c.fp].Dialer(self))
    {
      if c.fp !in conns {
        conns := conns[c.fp := c];
        return true;
      }
      var existing := conns[c.fp];
      var keepNew := Less(c.Dialer(self), existing.Dialer(self));
      LessIsStrictOrder(c.Dialer(self), existing.Dialer(self));
      if keepNew {
        conns := conns[c.fp := c];
      }
      if keepNew {
        existing.Close();
        return true;
      }
      return false;
    }

    /** The end of `runConn` after the read loop: close, then clear the entry if it is still ours. */
    method Finish(c: Conn)
      requires Valid()
      modifies this`conns, c
      ensures Valid() && c.closed
      ensures conns == AfterCleanup(old(conns), c.fp, c)
      ensures c !in conns.Values
    {
      c.Close();
      if c.fp in conns && conns[c.fp] == c {
        conns := conns - {c.fp};
      }
    }

    method CloseAllConns()
      requires Valid()
      modifies this`conns, conns.Values
      ensures Valid() && conns == map[]
      ensures forall d :: d in old(conns).Values ==> d.closed
    {
      var list := conns;
      conns := map[];
      var rest := list.Keys;
      while rest != {}
        invariant rest <= list.Keys && conns == map[]
        invariant forall fp :: fp in list && fp !in rest ==> list[fp].closed
        invariant forall fp :: fp in list && old(list[fp].closed) ==> list[fp].closed
        decreases rest
      {
        var fp :| fp in rest;
        list[fp].Close();
        rest := rest - {fp};
      }
    }
  }

  // ---- two nodes and one dial from each side

  /** A node, and the link it dialed. */
  datatype Side = A | B

  function Other(n: Side): Side { if n == A then B else A }

  /** Where one end of a link is in its life. */
  datatype Phase =
    | Idle          // handshake not finished at this end
    | Superseding   // registered, the older connection still to be closed
    | Reading       // in the read loop
    | Rejected      // lost in register, link still to be closed
    | Ended         // the read loop returned an error
    | Closing       // closed, table entry still to be cleared
    | Done          // runConn has returned, or the handshake failed at this end

  datatype DialState = Undecided | Dialed | NoDial

  /** One node: its connection table, its ends of the two links, and its own dial. */
  datatype Node = Node(conns: map<Fingerprint, Side>, onA: Phase, onB: Phase, dial: DialState)
  {
    function At(l: Side): Phase { if l == A then onA else onB }

    function With(l: Side, p: Phase): Node { if l == A then this.(onA := p) else this.(onB := p) }
  }

  /** cutA and cutB say which links either end, or the network, has closed. */
  datatype State = State(a: Node, b: Node, cutA: bool, cutB: bool)
  {
    function Of(n: Side): Node { if n == A then a else b }

    function Set(n: Side, nd: Node): State { if n == A then this.(a := nd) else this.(b := nd) }

    predicate IsCut(l: Side) { if l == A then cutA else cutB }

    function CutOff(l: Side): State { if l == A then this.(cutA := true) else this.(cutB := true) }
  }

  datatype Config = Config(fpA: Fingerprint, fpB: Fingerprint)
  {
    function Fp(n: Side): Fingerprint { if n == A then fpA else fpB }

    /** The side whose fingerprint is smaller. */
    function Smaller(): Side { if Less(fpA, fpB) then A else B }
  }

  function Start(): State
  {
    var nd := Node(map[], Idle, Idle, Undecided);
    State(nd, nd, false, false)
  }

  /** The links a node's next action is about. From outside come Cut, a failure of the network or a
      peer's farewell, and Abort, a handshake that fails at one end whatever it does at the other. */
  datatype Step =
    | Dial(n: Side)
    | Decline(n: Side)
    | Register(n: Side, l: Side)
    | CloseOld(n: Side, l: Side)
    | CloseRejected(n: Side, l: Side)
    | ReadFails(n: Side, l: Side)
    | CloseOwn(n: Side, l: Side)
    | Cleanup(n: Side, l: Side)
    | Abort(n: Side, l: Side)
    | Cut(l: Side)

  predicate Enabled(st: State, step: Step)
  {
    match step
    case Dial(n) => st.Of(n).dial == Undecided
    case Decline(n) => st.Of(n).dial == Undecided
    case Register(n, l) => st.Of(l).dial == Dialed && st.Of(n).At(l) == Idle
    case CloseOld(n, l) => st.Of(n).At(l) == Superseding
    case CloseRejected(n, l) => st.Of(n).At(l) == Rejected
    case ReadFails(n, l) => st.Of(n).At(l) == Reading && st.IsCut(l)
    case CloseOwn(n, l) => st.Of(n).At(l) == Ended
    case Cleanup(n, l) => st.Of(n).At(l) == Closing
    case Abort(n, l) => st.Of(l).dial == Dialed && st.Of(n).At(l) == Idle
    case Cut(l) => st.Of(l).dial == Dialed
  }

  /** Node n registers its end of link l. */
  function RegisterAt(c: Config, nd: Node, n: Side, l: Side): Node
  {
    var self, peer := c.Fp(n), c.Fp(Other(n));
    var known := peer in nd.conns;
    var keepNew := known && Supersedes(self, peer, n == l, n == nd.conns[peer]);
    nd.(conns := AfterRegister(nd.conns, peer, l, keepNew))
      .With(l, if !known then Reading else if keepNew then Superseding else Rejected)
  }

  function Apply(c: Config, st: State, step: Step): State
  {
    match step
    case Dial(n) => st.Set(n, st.Of(n).(dial := if c.Fp(Other(n)) in st.Of(n).conns then NoDial else Dialed))
    case Decline(n) => st.Set(n, st.Of(n).(dial := NoDial))
    case Register(n, l) => st.Set(n, RegisterAt(c, st.Of(n), n, l))
    case CloseOld(n, l) => st.Set(n, st.Of(n).With(l, Reading)).CutOff(Other(l))
    case CloseRejected(n, l) => st.Set(n, st.Of(n).With(l, Done)).CutOff(l)
    case ReadFails(n, l) => st.Set(n, st.Of(n).With(l, Ended))
    case CloseOwn(n, l) => st.Set(n, st.Of(n).With(l, Closing)).CutOff(l)
    case Cleanup(n, l) =>
      st.Set(n, st.Of(n).(conns := AfterCleanup(st.Of(n).conns, c.Fp(Other(n)), l)).With(l, Done))
    case Abort(n, l) => st.Set(n, st.Of(n).With(l, Done)).CutOff(l)
    case Cut(l) => st.CutOff(l)
  }

  /** The state after a run from the start, if each of its steps was enabled. */
  function Run(c: Config, steps: seq<Step>): Option<State>
  {
    if steps == [] then Some(Start())
    else
      var step := steps[|steps| - 1];
      match Run(c, steps[..|steps| - 1])
      case None => None
      case Some(st) => if Enabled(st, step) then Some(Apply(c, st, step)) else None
  }

  /** Nothing but the two nodes closes a link in this run. */
  predicate Undisturbed(steps: seq<Step>)
  {
    forall i :: 0 <= i < |steps| ==> !steps[i].Cut? && !steps[i].Abort?
  }

  /** What a step leaves of a node that does not take it: dials only come and links only go. */
  lemma Bystander(c: Config, st: State, step: Step, m: Side)
    requires Enabled(st, step) && (step.Cut? || step.n != m)
    ensures var u := Apply(c, st, step);
            && u.Of(m) == st.Of(m)
            && (forall l: Side :: st.IsCut(l) ==> u.IsCut(l))
            && (forall l: Side :: st.Of(l).dial == Dialed ==> u.Of(l).dial == Dialed)
  {
    hide Less, DialerOf, AfterRegister, AfterCleanup;
  }

  // ---- what holds however the links fail

  function Table(c: Config, nd: Node, n: Side): Option<Side>
  {
    var peer := c.Fp(Other(n));
    if peer in nd.conns then Some(nd.conns[peer]) else None
  }

  /** A link in a node's table is one whose `runConn` there has not returned. */
  predicate TableIsLive(c: Config, nd: Node, n: Side)
  {
    match Table(c, nd, n)
    case None => true
    case Some(l) => nd.At(l).Superseding? || nd.At(l).Reading? || nd.At(l).Ended? || nd.At(l).Closing?
  }

  lemma StepKeepsTableLive(c: Config, st: State, step: Step, m: Side)
    requires Enabled(st, step) && TableIsLive(c, st.Of(m), m)
    ensures TableIsLive(c, Apply(c, st, step).Of(m), m)
  {
    if step.Register? { RegisterLive(c, st, step.n, step.l, m); }
    else if step.Cleanup? { CleanupLive(c, st, step.n, step.l, m); }
    else { PhaseLive(c, st, step, m); }
    hide *;
  }

  /** Steps that change nothing but the phase of one end, and may cut a link. */
  predicate OnlyPhase(step: Step)
  {
    step.CloseOld? || step.CloseRejected? || step.ReadFails? || step.CloseOwn? || step.Abort?
  }

  function PhaseAfter(step: Step): Phase
    requires OnlyPhase(step)
  {
    match step
    case CloseOld(_, _) => Reading
    case ReadFails(_, _) => Ended
    case CloseOwn(_, _) => Closing
    case _ => Done
  }

  /** Which link such a step cuts. */
  predicate Cuts(step: Step, k: Side)
    requires OnlyPhase(step)
  {
    !step.ReadFails? && (k == step.l <==> !step.CloseOld?)
  }

  lemma PhaseEffect(c: Config, st: State, step: Step)
    requires OnlyPhase(step) && Enabled(st, step)
    ensures var u, n, l := Apply(c, st, step), step.n, step.l;
            && u.Of(n) == st.Of(n).With(l, PhaseAfter(step)) && u.Of(Other(n)) == st.Of(Other(n))
            && (forall k: Side :: u.IsCut(k) <==> st.IsCut(k) || Cuts(step, k))
  {
    hide Less, DialerOf, RegisterAt, AfterRegister, AfterCleanup;
  }

  lemma DialEffect(c: Config, st: State, step: Step)
    requires (step.Dial? || step.Decline?) && Enabled(st, step)
    ensures var u, nd := Apply(c, st, step).Of(step.n), st.Of(step.n);
            u.conns == nd.conns && forall l: Side :: u.At(l) == nd.At(l)
  {
    hide Less, DialerOf, RegisterAt, AfterRegister, AfterCleanup;
  }

  lemma PhaseLive(c: Config, st: State, step: Step, m: Side)
    requires Enabled(st, step) && !step.Register? && !step.Cleanup? && TableIsLive(c, st.Of(m), m)
    ensures TableIsLive(c, Apply(c, st, step).Of(m), m)
  {
    if step.Cut? || step.n != m { Bystander(c, st, step, m); }
    else if OnlyPhase(step) { PhaseEffect(c, st, step); }
    else { DialEffect(c, st, step); }
    hide Apply, Table, Less, Cuts;
    SameTable(c, st.Of(m), m, Apply(c, st, step).Of(m));
  }

  lemma RegisterLive(c: Config, st: State, n: Side, l: Side, m: Side)
    requires Enabled(st, Register(n, l)) && TableIsLive(c, st.Of(m), m)
    ensures TableIsLive(c, Apply(c, st, Register(n, l)).Of(m), m)
  {
    hide Less, DialerOf;
  }

  lemma CleanupLive(c: Config, st: State, n: Side, l: Side, m: Side)
    requires Enabled(st, Cleanup(n, l)) && TableIsLive(c, st.Of(m), m)
    ensures TableIsLive(c, Apply(c, st, Cleanup(n, l)).Of(m), m)
  {
    hide Less, DialerOf;
  }

  /** Over every run, with links failing anywhere. */
  lemma {:induction false} NeverLeftInTable(c: Config, steps: seq<Step>, n: Side)
    requires Run(c, steps).Some?
    ensures TableIsLive(c, Run(c, steps).value.Of(n), n)
    decreases |steps|
  {
    hide Enabled, Apply, TableIsLive;
    if steps == [] {
      StartLive(c, n);
    } else {
      NeverLeftInTable(c, steps[..|steps| - 1], n);
      StepKeepsTableLive(c, Run(c, steps[..|steps| - 1]).value, steps[|steps| - 1], n);
    }
  }

  lemma StartLive(c: Config, n: Side)
    ensures TableIsLive(c, Start().Of(n), n)
  {
  }

  // ---- agreement however the links fail

  /** One end of link l: an open one in the read loop is in the table, unless a newer connection is
      about to close it; what runConn has closed is cut; a superseding one has its entry already. */
  predicate EndInOrder(c: Config, st: State, n: Side, l: Side)
  {
    var nd := st.Of(n);
    && (nd.At(l) != Idle ==> st.Of(l).dial == Dialed)
    && (nd.At(l) == Reading && !st.IsCut(l) && nd.At(Other(l)) != Superseding ==> Table(c, nd, n) == Some(l))
    && (nd.At(l).Closing? || nd.At(l).Done? ==> st.IsCut(l))
    && (nd.At(l) == Superseding ==> Table(c, nd, n) == Some(l) && nd.At(Other(l)) != Idle)
  }

  predicate NodeInOrder(c: Config, st: State, n: Side)
  {
    TableIsLive(c, st.Of(n), n) && EndInOrder(c, st, n, A) && EndInOrder(c, st, n, B)
  }

  lemma RegisterInOrder(c: Config, st: State, n: Side, l: Side, k: Side)
    requires Enabled(st, Register(n, l)) && NodeInOrder(c, st, n)
    ensures EndInOrder(c, Apply(c, st, Register(n, l)), n, k)
  {
    hide Less, DialerOf;
  }

  lemma CleanupInOrder(c: Config, st: State, n: Side, l: Side, k: Side)
    requires Enabled(st, Cleanup(n, l)) && NodeInOrder(c, st, n)
    ensures EndInOrder(c, Apply(c, st, Cleanup(n, l)), n, k)
  {
    hide Less, DialerOf;
  }

  lemma PhaseInOrder(c: Config, st: State, step: Step, k: Side)
    requires OnlyPhase(step)
    requires Enabled(st, step) && NodeInOrder(c, st, step.n)
    ensures EndInOrder(c, Apply(c, st, step), step.n, k)
  {
    PhaseEffect(c, st, step);
    SameTable(c, st.Of(step.n), step.n, Apply(c, st, step).Of(step.n));
    hide Apply, Table, TableIsLive, Less;
  }

  lemma DialInOrder(c: Config, st: State, step: Step, k: Side)
    requires Enabled(st, step) && (step.Dial? || step.Decline?) && NodeInOrder(c, st, step.n)
    ensures EndInOrder(c, Apply(c, st, step), step.n, k)
  {
    hide Less, DialerOf, RegisterAt, AfterRegister, AfterCleanup, TableIsLive, Table;
    SameTable(c, st.Of(step.n), step.n, Apply(c, st, step).Of(step.n));
  }

  lemma SameTable(c: Config, nd: Node, n: Side, nd': Node)
    requires nd.conns == nd'.conns
    ensures Table(c, nd, n) == Table(c, nd', n)
  {
  }

  lemma BystanderInOrder(c: Config, st: State, step: Step, m: Side, k: Side)
    requires Enabled(st, step) && (step.Cut? || step.n != m) && EndInOrder(c, st, m, k)
    ensures EndInOrder(c, Apply(c, st, step), m, k)
  {
    Bystander(c, st, step, m);
    hide Apply, Enabled, Table;
  }

  lemma EndStaysInOrder(c: Config, st: State, step: Step, m: Side, k: Side)
    requires Enabled(st, step) && NodeInOrder(c, st, m)
    ensures EndInOrder(c, Apply(c, st, step), m, k)
  {
    if step.Cut? || step.n != m { BystanderInOrder(c, st, step, m, k); }
    else if step.Register? { RegisterInOrder(c, st, m, step.l, k); }
    else if step.Cleanup? { CleanupInOrder(c, st, m, step.l, k); }
    else if step.Dial? || step.Decline? { DialInOrder(c, st, step, k); }
    else { PhaseInOrder(c, st, step, k); }
    hide EndInOrder, TableIsLive, Apply, Enabled;
  }

  lemma StepInOrder(c: Config, st: State, step: Step, m: Side)
    requires Enabled(st, step) && NodeInOrder(c, st, m)
    ensures NodeInOrder(c, Apply(c, st, step), m)
  {
    StepKeepsTableLive(c, st, step, m);
    EndStaysInOrder(c, st, step, m, A);
    EndStaysInOrder(c, st, step, m, B);
    hide EndInOrder, TableIsLive, Apply, Enabled;
  }

  lemma StartInOrder(c: Config, n: Side)
    ensures NodeInOrder(c, Start(), n)
  {
  }

  lemma {:induction false} RunInOrder(c: Config, steps: seq<Step>, n: Side)
    requires Run(c, steps).Some?
    ensures NodeInOrder(c, Run(c, steps).value, n)
    decreases |steps|
  {
    hide Enabled, Apply, NodeInOrder;
    if steps == [] {
      StartInOrder(c, n);
    } else {
      RunInOrder(c, steps[..|steps| - 1], n);
      StepInOrder(c, Run(c, steps[..|steps| - 1]).value, steps[|steps| - 1], n);
    }
  }

  /** No node has anything left to do. */
  ghost predicate Finished(st: State)
  {
    forall step: Step :: !step.Cut? && !step.Abort? ==> !Enabled(st, step)
  }

  lemma NothingPending(st: State, n: Side, l: Side)
    requires Finished(st)
    ensures st.Of(n).At(l).Idle? || st.Of(n).At(l).Reading? || st.Of(n).At(l).Done?
    ensures st.Of(n).At(l) == Idle ==> st.Of(l).dial != Dialed
    ensures st.Of(n).At(l) == Reading ==> !st.IsCut(l)
  {
    assert !Enabled(st, Register(n, l)) && !Enabled(st, CloseOld(n, l)) && !Enabled(st, CloseRejected(n, l));
    assert !Enabled(st, ReadFails(n, l)) && !Enabled(st, CloseOwn(n, l)) && !Enabled(st, Cleanup(n, l));
  }

  /** Once nothing is pending an entry of one table is an entry of the other. */
  lemma EntryIsShared(c: Config, st: State, n: Side, l: Side)
    requires NodeInOrder(c, st, n) && NodeInOrder(c, st, Other(n)) && Finished(st)
    requires Table(c, st.Of(n), n) == Some(l)
    ensures Table(c, st.Of(Other(n)), Other(n)) == Some(l)
  {
    var m := Other(n);
    NothingPending(st, n, l);
    NothingPending(st, m, l);
    NothingPending(st, m, Other(l));
    hide Finished, Enabled, Table;
  }

  /** Whatever links fail, and whatever the fingerprints, a finished run leaves both tables with the
      same link, or both with none. */
  lemma TablesAgree(c: Config, steps: seq<Step>)
    requires Run(c, steps).Some? && Finished(Run(c, steps).value)
    ensures Table(c, Run(c, steps).value.a, A) == Table(c, Run(c, steps).value.b, B)
  {
    var st := Run(c, steps).value;
    RunInOrder(c, steps, A);
    RunInOrder(c, steps, B);
    hide Run, Finished, EndInOrder;
    forall n: Side, l: Side | Table(c, st.Of(n), n) == Some(l)
      ensures Table(c, st.Of(Other(n)), Other(n)) == Some(l)
    {
      EntryIsShared(c, st, n, l);
    }
    assert st.Of(A) == st.a && st.Of(B) == st.b && Other(A) == B && Other(B) == A;
  }

  // ---- convergence when nothing but the rule closes links

  /** One node in runs without Cut. s is the side with the smaller fingerprint. */
  predicate NodeConverging(c: Config, nd: Node, n: Side, s: Side, sDialed: bool, gDialed: bool, gCut: bool)
  {
    var ps, pg := nd.At(s), nd.At(Other(s));
    && (ps.Idle? || ps.Superseding? || ps.Reading?)
    && pg != Superseding
    && (ps != Idle ==> sDialed)
    && (pg != Idle ==> gDialed)
    && (pg.Ended? || pg.Closing? || pg.Done? ==> gCut)
    && (pg == Rejected ==> ps != Idle)
    && (ps != Idle && pg != Idle ==> ps == Superseding || pg == Rejected || gCut)
    && Table(c, nd, n) == if ps != Idle then Some(s)
                          else if pg.Reading? || pg.Ended? || pg.Closing? then Some(Other(s)) else None
  }

  predicate ConvergingAt(c: Config, st: State, n: Side)
  {
    var s, g := c.Smaller(), Other(c.Smaller());
    NodeConverging(c, st.Of(n), n, s, st.Of(s).dial == Dialed, st.Of(g).dial == Dialed, st.IsCut(g))
  }

  /** The smaller side's link is never closed, the other only because the smaller side dialed. */
  predicate Converging(c: Config, st: State)
  {
    var s, g := c.Smaller(), Other(c.Smaller());
    && !st.IsCut(s)
    && (st.IsCut(g) ==> st.Of(s).dial == Dialed)
    && ConvergingAt(c, st, A)
    && ConvergingAt(c, st, B)
  }

  /** Registering keeps the smaller side's link and rejects or supersedes the other. */
  lemma RegisterRule(c: Config, nd: Node, n: Side, l: Side)
    requires c.fpA != c.fpB && (l == c.Smaller() ==> Table(c, nd, n) != Some(l))
    requires l != c.Smaller() ==> Table(c, nd, n) in {None, Some(c.Smaller())}
    ensures var r := RegisterAt(c, nd, n, l);
            && r.dial == nd.dial && r.At(Other(l)) == nd.At(Other(l))
            && (Table(c, nd, n) == None ==> r.At(l) == Reading && Table(c, r, n) == Some(l))
            && (Table(c, nd, n) != None && l == c.Smaller() ==>
                  r.At(l) == Superseding && Table(c, r, n) == Some(l))
            && (Table(c, nd, n) != None && l != c.Smaller() ==>
                  r.At(l) == Rejected && Table(c, r, n) == Table(c, nd, n))
  {
    LessIsStrictOrder(c.fpA, c.fpB);
    hide Less;
  }

  lemma BystanderConverges(c: Config, st: State, step: Step)
    requires Enabled(st, step) && !step.Cut? && !step.Abort? && Converging(c, st)
    ensures ConvergingAt(c, Apply(c, st, step), Other(step.n))
  {
    Bystander(c, st, step, Other(step.n));
    NewCuts(c, st, step);
    hide Apply, Enabled, Table, Less;
  }

  /** A step cuts at most the link of the larger side, and only once the smaller side has dialed. */
  lemma NewCuts(c: Config, st: State, step: Step)
    requires Enabled(st, step) && !step.Cut? && !step.Abort? && Converging(c, st)
    ensures var s, u := c.Smaller(), Apply(c, st, step);
            && !u.IsCut(s)
            && (u.IsCut(Other(s)) ==> u.Of(s).dial == Dialed)
            && (st.Of(s).dial == Dialed ==> u.Of(s).dial == Dialed)
  {
    hide Less, DialerOf, AfterRegister, AfterCleanup, Table;
  }

  lemma RegisterConverges(c: Config, st: State, n: Side, l: Side)
    requires c.fpA != c.fpB && Enabled(st, Register(n, l)) && Converging(c, st)
    ensures ConvergingAt(c, Apply(c, st, Register(n, l)), n)
  {
    var s, g := c.Smaller(), Other(c.Smaller());
    RegisterEffect(c, st, n, l);
    NodeRegisters(c, st.Of(n), n, l, st.Of(s).dial == Dialed, st.Of(g).dial == Dialed, st.IsCut(g));
    hide Less, Apply, RegisterAt, NodeConverging;
  }

  lemma NodeRegisters(c: Config, nd: Node, n: Side, l: Side, sDialed: bool, gDialed: bool, gCut: bool)
    requires c.fpA != c.fpB && nd.At(l) == Idle && if l == c.Smaller() then sDialed else gDialed
    requires NodeConverging(c, nd, n, c.Smaller(), sDialed, gDialed, gCut)
    ensures NodeConverging(c, RegisterAt(c, nd, n, l), n, c.Smaller(), sDialed, gDialed, gCut)
  {
    hide Less, RegisterAt, Table;
    RegisterRule(c, nd, n, l);
  }

  lemma RegisterEffect(c: Config, st: State, n: Side, l: Side)
    requires Enabled(st, Register(n, l))
    ensures var u := Apply(c, st, Register(n, l));
            && u.Of(n) == RegisterAt(c, st.Of(n), n, l)
            && (forall k: Side :: u.IsCut(k) == st.IsCut(k) && u.Of(k).dial == st.Of(k).dial)
  {
    hide Less, DialerOf, AfterRegister;
  }

  lemma DialConverges(c: Config, st: State, step: Step)
    requires Enabled(st, step) && (step.Dial? || step.Decline?) && Converging(c, st)
    ensures ConvergingAt(c, Apply(c, st, step), step.n)
  {
    hide Less, DialerOf, RegisterAt, AfterRegister, AfterCleanup, Table;
    SameTable(c, st.Of(step.n), step.n, Apply(c, st, step).Of(step.n));
  }

  lemma CleanupConverges(c: Config, st: State, n: Side, l: Side)
    requires Enabled(st, Cleanup(n, l)) && Converging(c, st)
    ensures ConvergingAt(c, Apply(c, st, Cleanup(n, l)), n)
  {
    hide Less, DialerOf, AfterRegister;
  }

  lemma PhaseConverges(c: Config, st: State, step: Step)
    requires OnlyPhase(step) && !step.Abort?
    requires Enabled(st, step) && Converging(c, st)
    ensures ConvergingAt(c, Apply(c, st, step), step.n)
  {
    PhaseEffect(c, st, step);
    SameTable(c, st.Of(step.n), step.n, Apply(c, st, step).Of(step.n));
    hide Apply, Table, Less;
  }

  lemma ActorConverges(c: Config, st: State, step: Step)
    requires Enabled(st, step) && !step.Cut? && !step.Abort? && !step.Register? && Converging(c, st)
    ensures ConvergingAt(c, Apply(c, st, step), step.n)
  {
    if step.Dial? || step.Decline? { DialConverges(c, st, step); }
    else if step.Cleanup? { CleanupConverges(c, st, step.n, step.l); }
    else { PhaseConverges(c, st, step); }
    hide *;
  }

  lemma StepConverges(c: Config, st: State, step: Step)
    requires c.fpA != c.fpB && Enabled(st, step) && !step.Cut? && !step.Abort? && Converging(c, st)
    ensures Converging(c, Apply(c, st, step))
  {
    if step.Register? { RegisterConverges(c, st, step.n, step.l); } else { ActorConverges(c, st, step); }
    BystanderConverges(c, st, step);
    NewCuts(c, st, step);
    hide Apply, Enabled, ConvergingAt;
  }

  lemma {:induction false} RunConverges(c: Config, steps: seq<Step>)
    requires c.fpA != c.fpB && Run(c, steps).Some? && Undisturbed(steps)
    ensures Converging(c, Run(c, steps).value)
    decreases |steps|
  {
    hide Enabled, Apply, Converging;
    if steps == [] {
      StartConverging(c);
    } else {
      RunConverges(c, steps[..|steps| - 1]);
      StepConverges(c, Run(c, steps[..|steps| - 1]).value, steps[|steps| - 1]);
    }
  }

  lemma StartConverging(c: Config)
    ensures Converging(c, Start())
  {
  }

  /** The link dialed by the smaller fingerprint if that side dialed, else the other. */
  function Winner(c: Config, st: State): Option<Side>
  {
    var s := c.Smaller();
    if st.Of(s).dial == Dialed then Some(s)
    else if st.Of(Other(s)).dial == Dialed then Some(Other(s))
    else None
  }

  /** However a run without failures interleaves, once it is finished both tables hold the winner.
      It is open and read at both ends; a loser is closed and gone at both ends. */
  lemma BothKeepTheSame(c: Config, steps: seq<Step>, n: Side)
    requires c.fpA != c.fpB && Run(c, steps).Some? && Undisturbed(steps) && Finished(Run(c, steps).value)
    ensures var st := Run(c, steps).value;
            && Table(c, st.Of(n), n) == Winner(c, st)
            && (Winner(c, st).Some? ==> !st.IsCut(Winner(c, st).value) && st.Of(n).At(Winner(c, st).value) == Reading)
            && (st.a.dial == Dialed && st.b.dial == Dialed ==>
                  (var g := Other(c.Smaller()); st.IsCut(g) && st.Of(n).At(g) == Done))
  {
    var st := Run(c, steps).value;
    RunConverges(c, steps);
    NothingPending(st, n, A);
    NothingPending(st, n, B);
    hide Run, Finished, Enabled, Less;
  }

  // ---- every run without failures ends

  function PhaseWork(p: Phase): nat
  {
    match p
    case Idle => 6
    case Superseding => 5
    case Reading => 4
    case Ended => 3
    case Closing => 2
    case Rejected => 1
    case Done => 0
  }

  function NodeWork(nd: Node): nat
  {
    PhaseWork(nd.onA) + PhaseWork(nd.onB) + if nd.dial == Undecided then 1 else 0
  }

  function Work(st: State): nat { NodeWork(st.a) + NodeWork(st.b) }

  lemma PhaseChange(nd: Node, l: Side, p: Phase)
    ensures NodeWork(nd.With(l, p)) == NodeWork(nd) - PhaseWork(nd.At(l)) + PhaseWork(p)
  {
    hide PhaseWork;
  }

  /** What the acting node becomes. */
  lemma ActorWorks(c: Config, st: State, step: Step)
    requires Enabled(st, step) && !step.Cut?
    ensures NodeWork(Apply(c, st, step).Of(step.n)) < NodeWork(st.Of(step.n))
    ensures Apply(c, st, step).Of(Other(step.n)) == st.Of(Other(step.n))
  {
    hide Less, DialerOf, AfterRegister, AfterCleanup, NodeWork;
    var nd := st.Of(step.n);
    match step
    case Dial(n) => OnlyDial(nd, Dialed); OnlyDial(nd, NoDial);
    case Decline(n) => OnlyDial(nd, NoDial);
    case Register(n, l) =>
      var r := RegisterAt(c, nd, n, l);
      TableIsFree(nd, r.conns);
      PhaseChange(nd.(conns := r.conns), l, r.At(l));
    case CloseOld(n, l) => PhaseChange(nd, l, Reading);
    case CloseRejected(n, l) => PhaseChange(nd, l, Done);
    case Abort(n, l) => PhaseChange(nd, l, Done);
    case ReadFails(n, l) => PhaseChange(nd, l, Ended);
    case CloseOwn(n, l) => PhaseChange(nd, l, Closing);
    case Cleanup(n, l) =>
      var conns := AfterCleanup(nd.conns, c.Fp(Other(n)), l);
      TableIsFree(nd, conns);
      PhaseChange(nd.(conns := conns), l, Done);
  }

  lemma OnlyDial(nd: Node, d: DialState)
    requires nd.dial == Undecided && d != Undecided
    ensures NodeWork(nd.(dial := d)) + 1 == NodeWork(nd)
  {
  }

  lemma TableIsFree(nd: Node, conns: map<Fingerprint, Side>)
    ensures NodeWork(nd.(conns := conns)) == NodeWork(nd)
  {
  }

  lemma StepWorks(c: Config, st: State, step: Step)
    requires Enabled(st, step) && !step.Cut?
    ensures Work(Apply(c, st, step)) < Work(st)
  {
    ActorWorks(c, st, step);
    hide Apply, Enabled, NodeWork;
  }

  /** No run without failures takes more than 26 steps. */
  lemma {:induction false} RunsAreShort(c: Config, steps: seq<Step>)
    requires Run(c, steps).Some? && Undisturbed(steps)
    ensures |steps| + Work(Run(c, steps).value) <= 26
    decreases |steps|
  {
    if steps != [] {
      hide Enabled, Apply, Work;
      RunsAreShort(c, steps[..|steps| - 1]);
      StepWorks(c, Run(c, steps[..|steps| - 1]).value, steps[|steps| - 1]);
    }
  }
}
