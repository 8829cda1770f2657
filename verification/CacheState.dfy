/**
 The coherence state of one cache line: its own MESI state, the state granted to the caches
 above, and who they are.
 */
module CacheState {
  import opened SharerLists

  datatype StateType = M | E | S | I
  datatype MsgType = Req | ReqAck | SetState | SetStateAck | Disp
  datatype MsgAction = SetInvalid | SetValid | SetDirty | SetShared | SetExclusive

  // What adjustState asks of a message: its kind and action, the port of its creator (negative if
  // it has none here), whether this cache is its home node and its top coherent node, and
  // whether it is an acknowledgement that needs a displacement.
  datatype Message = Message(mt: MsgType, ma: MsgAction, port: int, home: bool, top: bool, disp: bool)
  {
    // The combinations the source asserts.
    predicate Legal() {
      match mt
      case Req => ma == SetExclusive || ma == SetDirty || ma == SetValid
      case ReqAck => ma == SetExclusive || ma == SetDirty || ma == SetShared
      case Disp => ma == SetDirty || ma == SetValid
      case SetState => ma == SetShared || ma == SetInvalid
      case SetStateAck => ma == SetShared || ma == SetInvalid
    }
  }

  // The sharers after a message.
  ghost function SharersAfter(s: seq<int>, m: Message): seq<int> {
    match m.mt
    case Disp => Removed(s, m.port)
    case SetStateAck => if m.ma == SetInvalid then Acked(s, m.port) else s
    case SetState => s
    case Req => Added(s, m.port)
    case ReqAck => Added(s, m.port)
  }

  // The caches above, or away from home the acknowledgement on its way, take rights away.
  predicate Down(m: Message) { m.mt == SetState || (m.mt == SetStateAck && !m.home) }

  // From local state o to n by one message, kind by kind.
  ghost predicate Moves(o: StateType, m: Message, n: StateType) {
    && (Down(m) ==> n == if m.ma == SetShared then S else I)
    && (m.mt == SetStateAck && m.home ==> n == if m.disp then M else o)
    && (m.mt == Disp ==> n == if m.ma == SetDirty then M else if o == I then E else o)
    && (m.mt == Req && o != I && (!m.top || m.ma == SetValid) ==> n == o)
    && (m.mt == Req && !(o != I && (!m.top || m.ma == SetValid)) ==> n == if m.ma == SetDirty then M else E)
    && (m.mt == ReqAck && m.ma == SetShared ==> n == S)
    && (m.mt == ReqAck && m.ma == SetExclusive ==> n == E)
    && (m.mt == ReqAck && m.ma == SetDirty ==> n == if m.top then M else if o == I then E else o)
  }

  // I, S, E and M by what they allow.
  function Rights(s: StateType): nat {
    match s
    case I => 0
    case S => 1
    case E => 2
    case M => 3
  }

  // What one message does to the rights, in order.  Only requests and their acknowledgements, dirty
  // displacements and displacing acknowledgements raise rights that there are; taking rights away
  // leaves just what it says.  Dirty data outlasts everything else but a request for exclusive
  // ownership at the top coherent node.
  lemma MovesByOrder(o: StateType, m: Message, n: StateType)
    requires m.Legal() && Moves(o, m, n)
    ensures m.mt == SetState || (m.mt == SetStateAck && !m.home) ==>
        Rights(n) == (if m.ma == SetShared then 1 else 0) && n != E && n != M
    ensures Rights(o) < Rights(n) ==>
        || m.mt == Req || m.mt == ReqAck || (m.mt == Disp && (m.ma == SetDirty || o == I))
        || (m.mt == SetStateAck && m.home && m.disp) || (o == I && n == S && m.ma == SetShared)
    ensures m.mt == Req ==> n != I && (n == S ==> o == S)
    ensures m.mt == Req ==> (Rights(n) < Rights(o) <==> o == M && m.top && m.ma == SetExclusive)
    ensures m.mt == Req && (m.top || o == I) ==> (m.ma == SetDirty ==> n == M) && (m.ma == SetExclusive ==> n == E)
    ensures o == M ==> (n != M <==>
        || m.mt == SetState || (m.mt == SetStateAck && !m.home)
        || (m.mt == ReqAck && m.ma != SetDirty) || (m.mt == Req && m.top && m.ma == SetExclusive))
    ensures o != M ==> (n == M <==>
        || (m.mt == Disp && m.ma == SetDirty) || (m.mt == SetStateAck && m.home && m.disp)
        || (m.ma == SetDirty && m.mt == ReqAck && m.top)
        || (m.ma == SetDirty && m.mt == Req && (m.top || o == I)))
  {
  }

  // The state granted above, from g and s to h and t.  After a request or its acknowledgement: nothing
  // without sharers, shared with several or when the line itself is only shared, and else exclusive.
  // A downgrade leaves shared; the last sharer to leave takes the grant along.
  ghost predicate Grants(g: StateType, s: seq<int>, m: Message, local: StateType, h: StateType, t: seq<int>) {
    && (m.mt == Req || m.mt == ReqAck ==>
         (h == I <==> t == []) && (h == E <==> |t| == 1 && local != S) && h != M)
    && (m.mt == SetStateAck && m.ma == SetShared ==> h == if g == I then I else S)
    && (m.mt == SetState || m.mt == Disp || (m.mt == SetStateAck && m.ma == SetInvalid) ==>
         h == if t == [] && s != [] then I else g)
  }

  class CState {
    var state: StateType
    var shareState: StateType
    var nSharers: nat
    const share: array<int>
    // The tag names a line; a line without state loses it.
    var tag: nat

    ghost predicate Valid()
      reads this, share
    {
      && share.Length == MAXNSHARERS && nSharers <= MAXNSHARERS && IsList(Sharers())
      && (nSharers > 1 ==> shareState == S)
      && (shareState == I ==> nSharers == 0)
      && shareState != M
    }

    ghost function Sharers(): seq<int>
      requires share.Length == MAXNSHARERS && nSharers <= MAXNSHARERS
      reads this, share
    {
      share[..nSharers]
    }

    constructor ()
      ensures Valid() && fresh(share) && state == I && Sharers() == []
    {
      share := new int[MAXNSHARERS];
      state, shareState, nSharers, tag := I, I, 0, 0;
    }

    method Invalidate()
      requires Valid()
      modifies this
      ensures Valid() && state == shareState == I && Sharers() == [] && tag == 0
    {
      state, shareState, nSharers, tag := I, I, 0, 0;
    }

    method AddSharing(id: int)
      requires Valid()
      modifies share, `nSharers, `shareState
      ensures nSharers <= MAXNSHARERS && IsList(Sharers()) && Sharers() == Added(old(Sharers()), id)
      ensures shareState == if old(nSharers) == 0 && id < 0 then I else old(shareState)
    {
      ghost var s := Sharers();
      UpdatesKeepList(s, id);
      if nSharers >= MAXNSHARERS {
        return;
      }
      if id < 0 {
        if nSharers == 0 {
          shareState := I;
        }
        return;
      }
      if nSharers == 0 {
        share[0] := id;
        nSharers := nSharers + 1;
        return;
      }
      for i := 0 to nSharers
        invariant forall j | 0 <= j < i :: s[j] != id
      {
        if share[i] == id {
          assert s[i] == id;
          return;
        }
      }
      share[nSharers] := id;
      nSharers := nSharers + 1;
      assert Sharers() == s + [id];
    }

    method RemoveSharing(id: int)
      requires Valid()
      modifies share, `nSharers, `shareState
      ensures Valid() && Sharers() == Removed(old(Sharers()), id)
      ensures shareState == if Sharers() == [] && old(Sharers()) != [] then I else old(shareState)
    {
      ghost var s := Sharers();
      UpdatesKeepList(s, id);
      if nSharers >= MAXNSHARERS {
        return;
      }
      for i := 0 to nSharers
        invariant forall j | 0 <= j < i :: s[j] != id
      {
        if share[i] == id {
          IndexIs(s, id, i);
          DropSharer(i);
          return;
        }
      }
      assert IndexOf(s, id) == |s|;
    }

    method DropSharer(i: nat)
      requires share.Length == MAXNSHARERS && i < nSharers <= MAXNSHARERS
      modifies share, `nSharers, `shareState
      ensures nSharers == old(nSharers) - 1 && Sharers() == old(Sharers()[..i] + Sharers()[i + 1..])
      ensures shareState == if nSharers == 0 then I else old(shareState)
    {
      ghost var s := Sharers();
      CloseGap(i);
      nSharers := nSharers - 1;
      assert Sharers() == s[..i] + s[i + 1..];
      if nSharers == 0 {
        shareState := I;
      }
    }

    method CloseGap(i: nat)
      requires share.Length == MAXNSHARERS && i < nSharers <= MAXNSHARERS
      modifies share
      ensures share[..nSharers - 1] == old(share[..i] + share[i + 1..nSharers])
    {
      ghost var s := share[..nSharers];
      for j := i to nSharers - 1
        invariant forall x | 0 <= x < i || j <= x < nSharers :: share[x] == s[x]
        invariant forall x | i <= x < j :: share[x] == s[x + 1]
      {
        share[j] := share[j + 1];
      }
      ghost var t := s[..i] + s[i + 1..];
      forall x | 0 <= x < nSharers - 1
        ensures share[x] == t[x]
      {
      }
    }

    function CalcAdjustState(m: Message): (r: StateType)
      requires m.Legal()
      reads `state
      ensures r == I ==> m.ma == SetInvalid
    {
      match m.ma
      case SetValid => if state == I then E else state
      case SetInvalid => I
      case SetDirty => M
      case SetShared => S
      case SetExclusive => E
    }

    method AdjustState(m: Message)
      requires Valid() && m.Legal()
      modifies this, share
      ensures Valid() && Moves(old(state), m, state) && Sharers() == SharersAfter(old(Sharers()), m)
      ensures Grants(old(shareState), old(Sharers()), m, state, shareState, Sharers())
      ensures tag == if state == I && shareState == I then 0 else old(tag)
      // After a downgrade the line is shared, after an invalidation it has nothing.
      ensures m.mt == SetState || (m.mt == SetStateAck && !m.home) ==> state == if m.ma == SetShared then S else I
      // A single sharer gets the line for its own just when the line itself is not only shared.
      ensures m.mt == Req || m.mt == ReqAck ==> (shareState == E <==> |Sharers()| == 1 && state != S)
      // Exclusive ownership is only ever granted to a single sharer, and dirty never.
      ensures ReqAckNeeds() != SetDirty && (ReqAckNeeds() == SetExclusive ==> |Sharers()| <= 1)
      ensures ReqAckNeeds() == SetInvalid ==> Sharers() == []
      ensures forall next: Message :: ShouldNotifyHigherLevels(next) <==> Conflicts(next)
    {
      hide ShouldNotifyHigherLevels, Conflicts, Added, Removed, Acked;
      var ostate := state;
      state := CalcAdjustState(m);
      match m.mt {
        case Disp =>
          AfterDisp(m);
        case SetStateAck =>
          AfterSetStateAck(m, ostate);
        case SetState =>
        case Req =>
          AfterRequest(m, ostate);
        case ReqAck =>
          AfterRequest(m, ostate);
      }
      if state == I && shareState == I {
        Invalidate();
      }
      AlwaysTold();
    }

    lemma AlwaysTold()
      requires Valid()
      ensures forall next: Message :: ShouldNotifyHigherLevels(next) <==> Conflicts(next)
    {
      forall next: Message
        ensures ShouldNotifyHigherLevels(next) <==> Conflicts(next)
      {
        ToldExactly(next);
      }
    }

    method AfterDisp(m: Message)
      requires Valid() && m.Legal() && m.mt == Disp && state != I
      modifies share, `nSharers, `shareState, `state
      ensures Valid() && state == (if m.ma == SetDirty then M else old(state))
      ensures Sharers() == SharersAfter(old(Sharers()), m)
      ensures Grants(old(shareState), old(Sharers()), m, state, shareState, Sharers())
    {
      RemoveSharing(m.port);
      if m.ma == SetDirty {
        state := M;
      }
    }

    method AfterSetStateAck(m: Message, ostate: StateType)
      requires Valid() && m.Legal() && m.mt == SetStateAck
      modifies share, `nSharers, `shareState, `state
      ensures Valid() && state == (if m.home then (if m.disp then M else ostate) else old(state))
      ensures Sharers() == SharersAfter(old(Sharers()), m)
      ensures Grants(old(shareState), old(Sharers()), m, state, shareState, Sharers())
    {
      if m.ma == SetInvalid {
        ForgetAcked(m.port);
      } else if shareState != I {
        shareState := S;
      }
      if m.home {
        state := ostate;
        if m.disp {
          state := M;
        }
      }
    }

    method ForgetAcked(port: int)
      requires Valid()
      modifies share, `nSharers, `shareState
      ensures Valid() && Sharers() == Acked(old(Sharers()), port)
      ensures shareState == if Sharers() == [] && old(Sharers()) != [] then I else old(shareState)
    {
      if nSharers >= MAXNSHARERS {
        Unbroadcast();
      }
      RemoveSharing(port);
    }

    method Unbroadcast()
      requires Valid() && nSharers == MAXNSHARERS
      modifies `nSharers
      ensures Valid() && Sharers() == old(Sharers())[..MAXNSHARERS - 1]
    {
      PrefixIsList(Sharers());
      nSharers := MAXNSHARERS - 1;
      assert Sharers() == old(Sharers())[..MAXNSHARERS - 1];
    }

    method AfterRequest(m: Message, ostate: StateType)
      requires Valid() && m.Legal() && (m.mt == Req || m.mt == ReqAck) && state != I
      requires m.ma == SetValid && ostate != I ==> state == ostate
      requires m.ma == SetValid && ostate == I ==> state == E
      requires m.ma == SetDirty ==> state == M
      requires m.ma == SetShared ==> state == S
      requires m.ma == SetExclusive ==> state == E
      modifies share, `nSharers, `shareState, `state
      ensures Valid() && Moves(ostate, m, state) && state != I
      ensures Sharers() == SharersAfter(old(Sharers()), m)
      ensures Grants(old(shareState), old(Sharers()), m, state, shareState, Sharers())
    {
      if ostate != I && !m.top {
        state := ostate;
      }
      if m.mt == ReqAck && !m.top {
        match m.ma {
          case SetDirty => state := if ostate == I then E else ostate;
          case SetShared => state := S;
          case SetExclusive => state := E;
        }
      }
      AddSharing(m.port);
      Grant();
    }

    method Grant()
      requires share.Length == MAXNSHARERS && nSharers <= MAXNSHARERS && IsList(Sharers())
      modifies `shareState
      ensures Valid() && shareState == if nSharers == 0 then I else if nSharers > 1 || state == S then S else E
    {
      if nSharers == 0 {
        shareState := I;
      } else if nSharers > 1 {
        shareState := S;
      } else {
        if state == S {
          shareState := S;
        } else {
          shareState := E;
        }
      }
    }

    // Whether the caches above must be told before m can be served.
    predicate ShouldNotifyHigherLevels(m: Message)
      requires share.Length == MAXNSHARERS
      reads this, share
    {
      if nSharers == 0 || (nSharers == 1 && share[0] == m.port) then false
      else if m.ma == SetValid || m.ma == SetShared then shareState != S
      else true
    }

    // Some cache above other than the requester's has a copy that m cannot live with: any copy for
    // a write, an exclusively granted one for a read.
    ghost predicate Conflicts(m: Message)
      requires Valid()
      reads this, share
    {
      (exists p :: p in Sharers() && p != m.port) && (m.ma == SetValid || m.ma == SetShared ==> shareState != S)
    }

    // The caches above are told just when one of them has a conflicting copy.
    lemma ToldExactly(m: Message)
      requires Valid()
      ensures ShouldNotifyHigherLevels(m) <==> Conflicts(m)
    {
      if nSharers > 0 {
        assert Sharers()[0] == share[0] && Sharers()[0] in Sharers();
      }
      if nSharers > 1 {
        assert Sharers()[0] != Sharers()[1] && Sharers()[1] in Sharers();
      }
    }

    // What a request acknowledgement may carry upwards.
    function ReqAckNeeds(): (r: MsgAction)
      reads `shareState
    {
      match shareState
      case M => SetDirty
      case E => SetExclusive
      case S => SetShared
      case I => SetInvalid
    }
  }

  // The ports a run of messages leaves, by sets.
  ghost function PortsAfter(ports: set<int>, ms: seq<Message>): set<int> {
    if ms == [] then ports else PortsStep(PortsAfter(ports, ms[..|ms| - 1]), ms[|ms| - 1])
  }

  ghost function PortsStep(ports: set<int>, m: Message): set<int> {
    if m.mt == Req || m.mt == ReqAck then (if m.port < 0 then ports else ports + {m.port})
    else if m.mt == Disp || (m.mt == SetStateAck && m.ma == SetInvalid) then ports - {m.port}
    else ports
  }

  ghost function ListAfter(s: seq<int>, ms: seq<Message>): seq<int> {
    if ms == [] then s else SharersAfter(ListAfter(s, ms[..|ms| - 1]), ms[|ms| - 1])
  }

  ghost predicate Small(ms: seq<Message>, n: nat) {
    forall i | 0 <= i < |ms| :: ms[i].port < n
  }

  // With fewer than 64 ports the list is exactly who asked and has not gone since.
  lemma {:induction false} ListIsExact(ms: seq<Message>, n: nat)
    requires Small(ms, n) && n < MAXNSHARERS
    ensures IsList(ListAfter([], ms)) && Ports(ListAfter([], ms)) == PortsAfter({}, ms)
    ensures forall i | 0 <= i < |ListAfter([], ms)| :: ListAfter([], ms)[i] < n
  {
    if ms != [] {
      var before, m := ms[..|ms| - 1], ms[|ms| - 1];
      ListIsExact(before, n);
      var s := ListAfter([], before);
      FewPorts(s, n);
      UpdatesKeepList(s, m.port);
      WithoutIsRemoval(s, m.port);
      if m.port >= 0 {
        AddedExactly(s, m.port);
      }
      SmallAfter(s, m, n);
    }
  }

  lemma SmallAfter(s: seq<int>, m: Message, n: nat)
    requires |s| < MAXNSHARERS && m.port < n && forall i | 0 <= i < |s| :: s[i] < n
    ensures forall i | 0 <= i < |SharersAfter(s, m)| :: SharersAfter(s, m)[i] < n
  {
    var v := SharersAfter(s, m);
    forall i | 0 <= i < |v|
      ensures v[i] < n
    {
      assert v[i] in s || v[i] == m.port;
    }
  }

  // Whether a full list can follow m: a request must be of a port it has, a displacement of one
  // it does not have, and an invalidation acknowledged by its last port.
  ghost predicate Harmless(s: seq<int>, m: Message) {
    |s| < MAXNSHARERS ||
    match m.mt
    case Req => m.port < 0 || m.port in s
    case ReqAck => m.port < 0 || m.port in s
    case Disp => m.port !in s
    case SetStateAck => m.ma == SetInvalid ==> m.port == s[MAXNSHARERS - 1]
    case SetState => true
  }

  lemma StepExactly(s: seq<int>, m: Message)
    requires IsList(s)
    ensures IsList(SharersAfter(s, m))
    ensures Ports(SharersAfter(s, m)) == PortsStep(Ports(s), m) <==> Harmless(s, m)
  {
    UpdatesKeepList(s, m.port);
    match m.mt
    case Disp => RemovedExactly(s, m.port);
    case SetStateAck => AckedExactly(s, m.port);
    case SetState =>
    case Req => if m.port >= 0 { AddedExactly(s, m.port); }
    case ReqAck => if m.port >= 0 { AddedExactly(s, m.port); }
  }

  ghost predicate Tracked(ms: seq<Message>, k: nat)
    requires k <= |ms|
  {
    Ports(ListAfter([], ms[..k])) == PortsAfter({}, ms[..k])
  }

  ghost predicate HarmlessAt(ms: seq<Message>, k: nat)
    requires k < |ms|
  {
    Harmless(ListAfter([], ms[..k]), ms[k])
  }

  // Throughout a run the list is exactly who asked and has not gone since, if and only if no
  // message of the run meets a full list that cannot follow it.
  lemma {:induction false} TrackedExactly(ms: seq<Message>)
    ensures IsList(ListAfter([], ms))
    ensures (forall k: nat | k <= |ms| :: Tracked(ms, k)) <==> (forall k: nat | k < |ms| :: HarmlessAt(ms, k))
  {
    hide Harmless, SharersAfter, PortsStep;
    if ms == [] {
      assert Tracked(ms, 0);
    } else {
      var n := |ms| - 1;
      var init := ms[..n];
      TrackedExactly(init);
      StepExactly(ListAfter([], init), ms[n]);
      forall k: nat | k <= n
        ensures Tracked(ms, k) <==> Tracked(init, k)
        ensures k < n ==> (HarmlessAt(ms, k) <==> HarmlessAt(init, k))
      {
        assert init[..k] == ms[..k];
      }
      assert init[..n] == init && ms[..n + 1] == ms;
      assert Tracked(init, n) ==> (Tracked(ms, n + 1) <==> HarmlessAt(ms, n));
    }
  }

  function Upto(n: nat): seq<int> {
    if n == 0 then [] else Upto(n - 1) + [n - 1]
  }

  // Read requests of the ports 0 to n - 1.
  function Reads(n: nat): seq<Message> {
    if n == 0 then [] else Reads(n - 1) + [Message(Req, SetValid, n - 1, false, true, false)]
  }

  lemma {:induction false} UptoHas(n: nat)
    ensures |Upto(n)| == n && forall p :: p in Upto(n) <==> 0 <= p < n
  {
    if n > 0 {
      UptoHas(n - 1);
    }
  }

  lemma {:induction false} ReadsLegal(n: nat)
    ensures |Reads(n)| == n && forall i | 0 <= i < n :: Reads(n)[i].Legal()
  {
    if n > 0 {
      ReadsLegal(n - 1);
    }
  }

  // All readers have asked, but only the first 64 are on the list.
  lemma {:induction false} ReadersAsked(n: nat)
    ensures forall p :: p in PortsAfter({}, Reads(n)) <==> 0 <= p < n
  {
    if n > 0 {
      ReadersAsked(n - 1);
      assert Reads(n)[..|Reads(n)| - 1] == Reads(n - 1);
    }
  }

  lemma {:induction false} ReadersListed(n: nat)
    ensures ListAfter([], Reads(n)) == Upto(if n < MAXNSHARERS then n else MAXNSHARERS)
  {
    hide Upto, PortsAfter;
    UptoStep(n);
    if n > 0 {
      ReadersListed(n - 1);
      assert Reads(n)[..|Reads(n)| - 1] == Reads(n - 1);
      UptoHas(if n - 1 < MAXNSHARERS then n - 1 else MAXNSHARERS);
    }
  }

  lemma UptoStep(n: nat)
    ensures Upto(n) == if n == 0 then [] else Upto(n - 1) + [n - 1]
  {
  }

  // When one line is read through 65 ports, the last is not remembered.
  method Overflow() returns (line: CState)
    ensures fresh(line) && line.Valid() && |line.Sharers()| == MAXNSHARERS
    ensures MAXNSHARERS in PortsAfter({}, Reads(MAXNSHARERS + 1)) && MAXNSHARERS !in line.Sharers()
  {
    hide ListAfter, PortsAfter, Upto, Reads;
    line := new CState();
    ReadersAsked(MAXNSHARERS + 1);
    ReadersListed(MAXNSHARERS + 1);
    ReadsLegal(MAXNSHARERS + 1);
    UptoHas(MAXNSHARERS);
    var _ := Run(line, Reads(MAXNSHARERS + 1));
  }

  // The local states between the messages ms, from a line without any.
  ghost predicate Course(states: seq<StateType>, ms: seq<Message>) {
    && |states| == |ms| + 1 && states[0] == I
    && forall k | 0 <= k < |ms| :: ms[k].Legal() && MovesAt(states, ms, k)
  }

  ghost predicate MovesAt(states: seq<StateType>, ms: seq<Message>, k: nat)
    requires k < |ms| && |states| == |ms| + 1
  {
    Moves(states[k], ms[k], states[k + 1])
  }

  // Message k makes the line dirty.
  ghost predicate Dirties(states: seq<StateType>, ms: seq<Message>, k: nat)
    requires k < |ms| && |states| == |ms| + 1
  {
    var m := ms[k];
    || (m.mt == Disp && m.ma == SetDirty) || (m.mt == SetStateAck && m.home && m.disp)
    || (m.ma == SetDirty && m.mt == ReqAck && m.top)
    || (m.ma == SetDirty && m.mt == Req && (m.top || states[k] == I))
  }

  // Message k makes the line clean.
  ghost predicate Cleans(ms: seq<Message>, k: nat)
    requires k < |ms|
  {
    var m := ms[k];
    || m.mt == SetState || (m.mt == SetStateAck && !m.home)
    || (m.mt == ReqAck && m.ma != SetDirty) || (m.mt == Req && m.top && m.ma == SetExclusive)
  }

  ghost predicate StillDirty(states: seq<StateType>, ms: seq<Message>, k: nat, n: nat)
    requires n <= |ms| && |states| == |ms| + 1
  {
    k < n && Dirties(states, ms, k) && forall j | k < j < n :: !Cleans(ms, j)
  }

  // After any messages the line is dirty if and only if one of them made it so and none has cleaned
  // it since.
  lemma {:induction false} DirtyExactly(states: seq<StateType>, ms: seq<Message>, n: nat)
    requires Course(states, ms) && n <= |ms|
    ensures states[n] == M <==> exists k: nat :: StillDirty(states, ms, k, n)
  {
    if n > 0 {
      hide Moves;
      var p: nat := n - 1;
      DirtyExactly(states, ms, p);
      assert MovesAt(states, ms, p);
      MovesByOrder(states[p], ms[p], states[n]);
      if Dirties(states, ms, p) {
        assert StillDirty(states, ms, p, n);
      }
      forall k: nat | k < p
        ensures StillDirty(states, ms, k, n) <==> StillDirty(states, ms, k, p) && !Cleans(ms, p)
      {
      }
      if k: nat :| StillDirty(states, ms, k, p) && !Cleans(ms, p) {
        assert StillDirty(states, ms, k, n);
      }
    }
  }

  // Whether message k can raise rights that there are.
  ghost predicate Raises(ms: seq<Message>, k: nat)
    requires k < |ms|
  {
    var m := ms[k];
    m.mt == Req || m.mt == ReqAck || m.mt == Disp || (m.mt == SetStateAck && m.home && m.disp)
  }

  // What a setState has taken away does not come back by itself: until a request, its
  // acknowledgement or a displacement, the line is at most shared.
  lemma {:induction false} StaysDown(states: seq<StateType>, ms: seq<Message>, k: nat, n: nat)
    requires Course(states, ms) && k < n <= |ms| && ms[k].mt == SetState
    requires forall j | k < j < n :: !Raises(ms, j)
    ensures states[n] == S || states[n] == I
    decreases n
  {
    assert MovesAt(states, ms, n - 1);
    MovesByOrder(states[n - 1], ms[n - 1], states[n]);
    if k < n - 1 {
      StaysDown(states, ms, k, n - 1);
      assert !Raises(ms, n - 1);
    }
  }

  // A request for exclusive ownership at the top coherent node makes a dirty line clean.
  method DropsDirty() returns (line: CState)
    ensures fresh(line) && line.Valid() && line.state == E
  {
    line := new CState();
    line.AdjustState(Message(Req, SetDirty, 0, false, true, false));
    assert line.state == M;
    line.AdjustState(Message(Req, SetExclusive, 0, false, true, false));
  }

  // A whole run of messages on one line.
  method Run(line: CState, ms: seq<Message>) returns (ghost states: seq<StateType>)
    requires line.Valid() && line.state == I && line.Sharers() == [] && forall i | 0 <= i < |ms| :: ms[i].Legal()
    modifies line, line.share
    ensures line.Valid() && line.Sharers() == ListAfter([], ms)
    ensures Course(states, ms) && line.state == states[|ms|]
    ensures forall n: nat | Small(ms, n) && n < MAXNSHARERS :: Ports(line.Sharers()) == PortsAfter({}, ms)
  {
    hide Moves;
    states := [I];
    for i := 0 to |ms|
      invariant line.Valid() && line.Sharers() == ListAfter([], ms[..i])
      invariant Course(states, ms[..i]) && line.state == states[i]
    {
      line.AdjustState(ms[i]);
      assert ms[..i + 1][..i] == ms[..i];
      CourseOn(states, ms, i, line.state);
      states := states + [line.state];
    }
    assert ms[..|ms|] == ms;
    forall n: nat | Small(ms, n) && n < MAXNSHARERS
      ensures Ports(line.Sharers()) == PortsAfter({}, ms)
    {
      ListIsExact(ms, n);
    }
  }

  lemma CourseOn(states: seq<StateType>, ms: seq<Message>, i: nat, t: StateType)
    requires i < |ms| && Course(states, ms[..i]) && ms[i].Legal() && Moves(states[i], ms[i], t)
    ensures Course(states + [t], ms[..i + 1])
  {
    hide Moves;
    var ts, us := states + [t], ms[..i + 1];
    forall k | 0 <= k < |us|
      ensures us[k].Legal() && MovesAt(ts, us, k)
    {
      assert k < i ==> us[k] == ms[..i][k] && MovesAt(states, ms[..i], k);
    }
  }
}
