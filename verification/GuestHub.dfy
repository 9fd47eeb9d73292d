/** The guest gateway's tables: invites, sessions by id, and sessions by invite.  Handlers run one
    at a time; times are nanoseconds. */
module GuestHub {
  import opened Wrappers

  const MAX_SESSIONS := 4
  const MAX_INVITES := 64
  const SESSION_IDLE: int := 180_000_000_000
  const MILLISECOND: int := 1_000_000

  datatype Invite = Invite(token: string, expires: int, revoked: bool, allowPlain: bool)
  {
    /** Expiry is kept in milliseconds; 0 means never. */
    predicate Expired(now: int) { expires > 0 && now / MILLISECOND > expires }

    predicate Usable(now: int) { !revoked && !Expired(now) }
  }

  /** enc says whether the guest agreed on a key. */
  datatype Session = Session(sid: string, invite: string, created: int, enc: bool)

  /** What a guest's hello offers besides the token: its protocol version, a public key or none,
      and whether a key could be agreed from it. */
  datatype Offer = Offer(versionOk: bool, hasKey: bool, keyOk: bool)
  {
    /** Without a key only an invite that allows plaintext is joined. */
    predicate Acceptable(inv: Invite) { versionOk && if hasKey then keyOk else inv.allowPlain }
  }

  type Tab = map<string, Session>

  datatype Hub = Hub(
    invites: map<string, Invite>,
    order: seq<string>,
    announced: set<string>,
    sessions: Tab,
    byInvite: map<string, Tab>)

  // ---- what the handlers do to the tables

  /** The sessions of one invite. */
  function SessionsOf(h: Hub, id: string): Tab
  {
    if id in h.byInvite then h.byInvite[id] else map[]
  }

  /** Without the given sessions; an invite whose last session goes leaves the index. */
  function Without(h: Hub, sids: set<string>): Hub
  {
    h.(sessions := h.sessions - sids,
       byInvite := map id | id in h.byInvite && h.byInvite[id].Keys - sids != {} :: h.byInvite[id] - sids)
  }

  function Revoked(h: Hub, id: string): Hub
  {
    if id !in h.invites then h
    else Without(h.(invites := h.invites[id := h.invites[id].(revoked := true)]), SessionsOf(h, id).Keys)
  }

  /** The list without the first occurrence of x. */
  function WithoutFirst(s: seq<string>, x: string): seq<string>
  {
    if s == [] then [] else if s[0] == x then s[1..] else [s[0]] + WithoutFirst(s[1..], x)
  }

  function Removed(h: Hub, id: string): Hub
  {
    if id !in h.invites then h
    else
      var r := Revoked(h, id);
      r.(invites := r.invites - {id}, order := WithoutFirst(r.order, id))
  }

  /** The invites that a sweep retires; it reads the clock for each of them. */
  function Retired(h: Hub, clock: string -> int): set<string>
  {
    set id | id in h.invites && !h.invites[id].revoked && h.invites[id].Expired(clock(id)) && id !in h.announced
  }

  function SessionsOfAll(h: Hub, ids: set<string>): set<string>
  {
    set sid | sid in h.sessions && h.sessions[sid].invite in ids
  }

  function SweptExpired(h: Hub, clock: string -> int): Hub
  {
    Without(h.(announced := h.announced + Retired(h, clock)), SessionsOfAll(h, Retired(h, clock)))
  }

  function Grown(h: Hub, s: Session): Hub
  {
    h.(sessions := h.sessions[s.sid := s],
       byInvite := h.byInvite[s.invite := SessionsOf(h, s.invite)[s.sid := s]])
  }

  /** e is a session that no other of the invite is older than. */
  predicate Oldest(m: Tab, e: string)
  {
    e in m && forall o :: o in m ==> m[e].created <= m[o].created
  }

  /** An invite that evicts nobody: not full, or without a session created before now. */
  predicate Roomy(m: Tab, now: int)
  {
    |m| < MAX_SESSIONS || forall o :: o in m ==> m[o].created >= now
  }

  /** What the eviction loop finds in the sessions of an invite. */
  ghost predicate Picked(m: Tab, now: int, evict: Option<string>)
  {
    match evict
    case None => Roomy(m, now)
    case Some(e) => !Roomy(m, now) && Oldest(m, e) && m[e].created < now
  }

  /** The tables after s joins: with the invite full, one of its oldest sessions is evicted, unless
      the clock has not moved since it was created. */
  ghost predicate Joined(h: Hub, s: Session, now: int, h': Hub)
  {
    var m := SessionsOf(h, s.invite);
    if Roomy(m, now) then h' == Grown(h, s)
    else exists e :: Oldest(m, e) && m[e].created < now && h' == Without(Grown(h, s), {e})
  }

  predicate Admitted(h: Hub, id: string, token: string, now: int)
  {
    id in h.invites && h.invites[id].token == token && h.invites[id].Usable(now)
  }

  predicate HasRoom(h: Hub) { |h.invites| < MAX_INVITES }

  function Created(h: Hub, id: string, inv: Invite): Hub
  {
    h.(invites := h.invites[id := inv], order := h.order + [id])
  }

  // ---- the invariant

  /** A session is in the table exactly if it is filed under its own invite, and no other. */
  ghost predicate IndexesAgree(h: Hub) { EverySessionFiled(h) && NothingElseFiled(h) }

  ghost predicate EverySessionFiled(h: Hub)
  {
    forall sid :: sid in h.sessions ==>
      h.sessions[sid].sid == sid && sid in SessionsOf(h, h.sessions[sid].invite)
  }

  ghost predicate NothingElseFiled(h: Hub)
  {
    forall id, sid :: id in h.byInvite && sid in h.byInvite[id] ==>
      sid in h.sessions && h.sessions[sid] == h.byInvite[id][sid] && h.sessions[sid].invite == id
  }

  ghost predicate NoEmpties(h: Hub)
  {
    forall id :: id in h.byInvite ==> h.byInvite[id] != map[]
  }

  ghost predicate IndexTidy(h: Hub)
  {
    forall id :: id in h.byInvite ==> 0 < |h.byInvite[id]| <= 4
  }

  /** No session belongs to an invite that is unknown, revoked, or retired by a sweep, and none is
      unencrypted unless its invite allows that. */
  ghost predicate SessionsWelcome(h: Hub)
  {
    forall sid :: sid in h.sessions ==>
      var id := h.sessions[sid].invite;
      id in h.invites && !h.invites[id].revoked && id !in h.announced
      && (h.sessions[sid].enc || h.invites[id].allowPlain)
  }

  ghost predicate OrderListsInvites(h: Hub)
  {
    && (forall i, j :: 0 <= i < j < |h.order| ==> h.order[i] != h.order[j])
    && (forall id :: id in h.order <==> id in h.invites)
  }

  /** What the past has left behind: sessions were created by now, and retired invites stay expired. */
  ghost predicate PastIsPast(h: Hub, now: int)
  {
    && (forall sid :: sid in h.sessions ==> h.sessions[sid].created <= now)
    && (forall id :: id in h.announced && id in h.invites ==> h.invites[id].Expired(now))
  }

  ghost predicate Invariant(h: Hub, now: int)
  {
    IndexesAgree(h) && IndexTidy(h) && SessionsWelcome(h) && OrderListsInvites(h) && PastIsPast(h, now)
  }

  // ---- what keeps it

  lemma WithoutSessionsOf(h: Hub, sids: set<string>, id: string)
    ensures SessionsOf(Without(h, sids), id) == SessionsOf(h, id) - sids
  {
    if id in h.byInvite && h.byInvite[id].Keys - sids == {} {
      assert h.byInvite[id] - sids == map[];
    }
  }

  lemma WithoutParts(h: Hub, sids: set<string>)
    ensures Without(h, sids).sessions == h.sessions - sids
    ensures forall id :: id in Without(h, sids).byInvite ==>
              id in h.byInvite && Without(h, sids).byInvite[id] == h.byInvite[id] - sids
  {
  }

  lemma WithoutKeepsFiled(h: Hub, sids: set<string>)
    requires EverySessionFiled(h)
    ensures EverySessionFiled(Without(h, sids))
  {
    WithoutParts(h, sids);
    hide Without, SessionsOf;
    forall sid | sid in h.sessions - sids ensures sid in SessionsOf(Without(h, sids), h.sessions[sid].invite) {
      WithoutSessionsOf(h, sids, h.sessions[sid].invite);
    }
  }

  lemma WithoutFilesNothingElse(h: Hub, sids: set<string>)
    requires NothingElseFiled(h)
    ensures NothingElseFiled(Without(h, sids))
  {
    WithoutParts(h, sids);
    hide Without;
  }

  lemma WithoutKeepsIndexes(h: Hub, sids: set<string>)
    requires IndexesAgree(h)
    ensures IndexesAgree(Without(h, sids))
    ensures forall id :: SessionsOf(Without(h, sids), id) == SessionsOf(h, id) - sids
  {
    hide Without, SessionsOf, EverySessionFiled, NothingElseFiled;
    WithoutKeepsFiled(h, sids);
    WithoutFilesNothingElse(h, sids);
    forall id ensures SessionsOf(Without(h, sids), id) == SessionsOf(h, id) - sids { WithoutSessionsOf(h, sids, id); }
  }

  lemma SmallerTab(m: Tab, sids: set<string>)
    ensures |m - sids| <= |m|
    ensures m.Keys - sids != {} ==> |m - sids| > 0
  {
    assert (m - sids).Keys == m.Keys - sids;
    SubsetSize(m.Keys - sids, m.Keys);
    assert |m - sids| == |(m - sids).Keys|;
    assert |m| == |m.Keys|;
  }

  lemma {:induction false} SubsetSize<T>(a: set<T>, b: set<T>)
    requires a <= b
    ensures |a| <= |b|
  {
    assert |b| == |a| + |b - a| by { assert a + (b - a) == b; }
  }

  lemma WithoutKeepsTidy(h: Hub, sids: set<string>)
    requires IndexTidy(h)
    ensures IndexTidy(Without(h, sids))
  {
    var w := Without(h, sids);
    forall id | id in w.byInvite ensures 0 < |w.byInvite[id]| <= MAX_SESSIONS {
      SmallerTab(h.byInvite[id], sids);
    }
  }

  lemma WithoutKeeps(h: Hub, sids: set<string>, now: int)
    requires Invariant(h, now)
    ensures Invariant(Without(h, sids), now)
  {
    WithoutKeepsIndexes(h, sids);
    WithoutKeepsTidy(h, sids);
    hide IndexesAgree, IndexTidy;
  }

  lemma LaterKeeps(h: Hub, before: int, now: int)
    requires Invariant(h, before) && before <= now
    ensures Invariant(h, now)
  {
    hide IndexesAgree, IndexTidy, SessionsWelcome, OrderListsInvites;
    forall id | id in h.announced && id in h.invites ensures h.invites[id].Expired(now) {
      assert h.invites[id].Expired(before);
      assert before / MILLISECOND <= now / MILLISECOND;
    }
  }

  /** The two indexes say nothing about the other tables. */
  lemma SameTables(h: Hub, g: Hub)
    requires h.sessions == g.sessions && h.byInvite == g.byInvite
    ensures IndexesAgree(h) <==> IndexesAgree(g)
    ensures (IndexTidy(h) <==> IndexTidy(g)) && (NoEmpties(h) <==> NoEmpties(g))
    ensures forall id :: SessionsOf(h, id) == SessionsOf(g, id)
  {
    assert forall id :: SessionsOf(h, id) == SessionsOf(g, id);
    hide SessionsOf;
  }

  lemma RevokeKeeps(h: Hub, id: string, now: int)
    requires Invariant(h, now)
    ensures Invariant(Revoked(h, id), now)
    ensures id in h.invites ==>
              forall sid :: sid in Revoked(h, id).sessions ==> Revoked(h, id).sessions[sid].invite != id
  {
    if id in h.invites {
      RevokedKeepsIndexes(h, id);
      RevokedGone(h, id);
      RevokedKeepsLists(h, id);
      RevokedKeepsRest(h, id, now);
      hide *;
      FromParts(Revoked(h, id), now);
    } else {
      assert Revoked(h, id) == h;
    }
  }

  lemma FromParts(h: Hub, now: int)
    requires IndexesAgree(h) && IndexTidy(h) && SessionsWelcome(h) && OrderListsInvites(h) && PastIsPast(h, now)
    ensures Invariant(h, now)
  {
  }

  lemma RevokedKeepsIndexes(h: Hub, id: string)
    requires IndexesAgree(h) && IndexTidy(h) && id in h.invites
    ensures IndexesAgree(Revoked(h, id)) && IndexTidy(Revoked(h, id))
  {
    var sids := SessionsOf(h, id).Keys;
    var marked := h.(invites := h.invites[id := h.invites[id].(revoked := true)]);
    hide IndexesAgree, IndexTidy, SessionsOf, Without;
    SameTables(h, marked);
    WithoutKeepsIndexes(marked, sids);
    WithoutKeepsTidy(marked, sids);
  }

  lemma RevokedKeepsRest(h: Hub, id: string, now: int)
    requires SessionsWelcome(h) && OrderListsInvites(h) && PastIsPast(h, now) && id in h.invites
    requires forall sid :: sid in Revoked(h, id).sessions ==> Revoked(h, id).sessions[sid].invite != id
    ensures SessionsWelcome(Revoked(h, id)) && OrderListsInvites(Revoked(h, id)) && PastIsPast(Revoked(h, id), now)
  {
    hide SessionsOf;
  }

  lemma RevokedGone(h: Hub, id: string)
    requires IndexesAgree(h) && id in h.invites
    ensures forall sid :: sid in Revoked(h, id).sessions ==> Revoked(h, id).sessions[sid].invite != id
  {
  }

  lemma {:induction false} WithoutFirstMembers(s: seq<string>, x: string)
    requires forall i, j :: 0 <= i < j < |s| ==> s[i] != s[j]
    ensures var r := WithoutFirst(s, x);
            && (forall i, j :: 0 <= i < j < |r| ==> r[i] != r[j])
            && (forall y :: y in r <==> y in s && y != x)
  {
    if s != [] {
      WithoutFirstMembers(s[1..], x);
      assert s == [s[0]] + s[1..];
      assert forall i :: 0 <= i < |s[1..]| ==> s[1..][i] == s[i + 1] != s[0];
      assert s[0] !in s[1..];
    }
  }

  lemma RemoveKeeps(h: Hub, id: string, now: int)
    requires Invariant(h, now)
    ensures Invariant(Removed(h, id), now)
  {
    if id in h.invites {
      RevokeKeeps(h, id, now);
      RevokedKeepsLists(h, id);
      var r := Revoked(h, id);
      assert Removed(h, id) == r.(invites := r.invites - {id}, order := WithoutFirst(r.order, id));
      hide Revoked, Removed, WithoutFirst;
      Forget(r, id, now);
    }
  }

  /** Dropping an invite that has no session. */
  lemma Forget(r: Hub, id: string, now: int)
    requires Invariant(r, now) && id in r.invites
    requires forall sid :: sid in r.sessions ==> r.sessions[sid].invite != id
    ensures Invariant(r.(invites := r.invites - {id}, order := WithoutFirst(r.order, id)), now)
  {
    var f := r.(invites := r.invites - {id}, order := WithoutFirst(r.order, id));
    SameTables(r, f);
    ForgottenOrder(r, f, id);
    ForgottenRest(r, f, id, now);
    hide IndexesAgree, IndexTidy, WithoutFirst, SessionsWelcome, PastIsPast, OrderListsInvites;
  }

  lemma ForgottenOrder(r: Hub, f: Hub, id: string)
    requires OrderListsInvites(r) && f.invites == r.invites - {id} && f.order == WithoutFirst(r.order, id)
    ensures OrderListsInvites(f)
  {
    WithoutFirstMembers(r.order, id);
    hide WithoutFirst;
  }

  lemma ForgottenRest(r: Hub, f: Hub, id: string, now: int)
    requires SessionsWelcome(r) && PastIsPast(r, now)
    requires forall sid :: sid in r.sessions ==> r.sessions[sid].invite != id
    requires f.invites == r.invites - {id} && f.sessions == r.sessions && f.announced == r.announced
    ensures SessionsWelcome(f) && PastIsPast(f, now)
  {
  }

  lemma RevokedKeepsLists(h: Hub, id: string)
    requires id in h.invites
    ensures Revoked(h, id).order == h.order && Revoked(h, id).announced == h.announced
    ensures Revoked(h, id).invites == h.invites[id := h.invites[id].(revoked := true)]
  {
  }

  lemma SweepKeeps(h: Hub, clock: string -> int, now: int)
    requires Invariant(h, now) && forall id :: clock(id) <= now
    ensures Invariant(SweptExpired(h, clock), now)
  {
    SweepKeepsIndexes(h, clock);
    SweepKeepsRest(h, clock, now);
    hide *;
    FromParts(SweptExpired(h, clock), now);
  }

  lemma SweepKeepsIndexes(h: Hub, clock: string -> int)
    requires IndexesAgree(h) && IndexTidy(h)
    ensures IndexesAgree(SweptExpired(h, clock)) && IndexTidy(SweptExpired(h, clock))
  {
    var marked := h.(announced := h.announced + Retired(h, clock));
    hide IndexesAgree, IndexTidy, SessionsOf, SessionsOfAll, Retired, Without;
    SameTables(h, marked);
    WithoutKeepsIndexes(marked, SessionsOfAll(h, Retired(h, clock)));
    WithoutKeepsTidy(marked, SessionsOfAll(h, Retired(h, clock)));
  }

  lemma SweepKeepsRest(h: Hub, clock: string -> int, now: int)
    requires SessionsWelcome(h) && OrderListsInvites(h) && PastIsPast(h, now) && forall id :: clock(id) <= now
    ensures var w := SweptExpired(h, clock); SessionsWelcome(w) && OrderListsInvites(w) && PastIsPast(w, now)
  {
  }

  /** After a sweep every session belongs to an invite that was usable when the sweep looked at it. */
  lemma SweepLeavesUsable(h: Hub, clock: string -> int, now: int, sid: string)
    requires Invariant(h, now) && sid in SweptExpired(h, clock).sessions
    ensures var s := SweptExpired(h, clock);
            var id := s.sessions[sid].invite; id in s.invites && s.invites[id].Usable(clock(id))
  {
    hide IndexesAgree, IndexTidy, OrderListsInvites;
  }

  /** Only the entry of the newcomer's own invite changes, and by the newcomer alone. */
  lemma GrownParts(h: Hub, s: Session)
    ensures Grown(h, s).sessions == h.sessions[s.sid := s]
    ensures forall id :: id in Grown(h, s).byInvite <==> id == s.invite || id in h.byInvite
    ensures forall id :: SessionsOf(Grown(h, s), id)
                      == if id == s.invite then SessionsOf(h, id)[s.sid := s] else SessionsOf(h, id)
  {
  }

  lemma SessionsOfEntry(h: Hub)
    ensures forall id :: id in h.byInvite ==> h.byInvite[id] == SessionsOf(h, id)
    ensures forall id :: id !in h.byInvite ==> SessionsOf(h, id) == map[]
  {
  }

  lemma GrownKeepsFiled(h: Hub, s: Session)
    requires EverySessionFiled(h)
    ensures EverySessionFiled(Grown(h, s))
  {
    GrownParts(h, s);
    hide Grown, SessionsOf;
  }

  lemma GrownFilesNothingElse(h: Hub, s: Session)
    requires NothingElseFiled(h) && s.sid !in h.sessions
    ensures NothingElseFiled(Grown(h, s)) && s.sid !in SessionsOf(h, s.invite)
  {
    GrownParts(h, s);
    SessionsOfEntry(h);
    SessionsOfEntry(Grown(h, s));
    hide Grown, SessionsOf;
  }

  lemma GrownKeepsIndexes(h: Hub, s: Session)
    requires IndexesAgree(h) && s.sid !in h.sessions
    ensures IndexesAgree(Grown(h, s))
    ensures |SessionsOf(Grown(h, s), s.invite)| == |SessionsOf(h, s.invite)| + 1
  {
    GrownKeepsFiled(h, s);
    GrownFilesNothingElse(h, s);
    GrownParts(h, s);
    hide Grown, SessionsOf, EverySessionFiled, NothingElseFiled;
  }

  lemma GrownKeepsRest(h: Hub, s: Session, now: int)
    requires SessionsWelcome(h) && OrderListsInvites(h) && PastIsPast(h, now) && s.created <= now
    requires s.invite in h.invites && !h.invites[s.invite].revoked && s.invite !in h.announced
    requires s.enc || h.invites[s.invite].allowPlain
    ensures var g := Grown(h, s); SessionsWelcome(g) && OrderListsInvites(g) && PastIsPast(g, now)
  {
    hide SessionsOf;
  }

  lemma WithoutKeepsRest(g: Hub, sids: set<string>, now: int)
    requires SessionsWelcome(g) && OrderListsInvites(g) && PastIsPast(g, now)
    ensures var w := Without(g, sids); SessionsWelcome(w) && OrderListsInvites(w) && PastIsPast(w, now)
  {
  }

  lemma GrownTidy(h: Hub, s: Session)
    requires IndexesAgree(h) && IndexTidy(h) && s.sid !in h.sessions && |SessionsOf(h, s.invite)| < MAX_SESSIONS
    ensures IndexTidy(Grown(h, s))
  {
    GrownKeepsIndexes(h, s);
    hide IndexesAgree;
  }

  lemma NewcomerStays(h: Hub, s: Session, e: string)
    requires s.sid !in h.sessions && e in h.sessions
    ensures s.sid in Without(Grown(h, s), {e}).sessions
  {
  }

  /** An invite that is usable has not been retired. */
  lemma UsableIsNotRetired(h: Hub, id: string, now: int)
    requires PastIsPast(h, now) && id in h.invites && h.invites[id].Usable(now)
    ensures id !in h.announced && !h.invites[id].revoked
  {
  }

  /** Joining keeps everything, provided the clock has moved since the last session was created. The
      invite is checked at `from`; `now` is the reading that the eviction goes by. */
  lemma JoinKeeps(h: Hub, s: Session, before: int, from: int, now: int, h': Hub)
    requires Invariant(h, before) && before <= from <= s.created <= now && before < now && s.sid !in h.sessions
    requires s.invite in h.invites && h.invites[s.invite].Usable(from) && (s.enc || h.invites[s.invite].allowPlain)
    requires Joined(h, s, now, h')
    ensures Invariant(h', now) && s.sid in h'.sessions
  {
    JoinKeepsRest(h, s, before, from, now);
    JoinKeepsTidy(h, s, before, now, h');
    hide *;
    GrownFiles(h, s);
    if h' != Grown(h, s) {
      var e := JoinEvicts(h, s, now, h');
      TabIsOfInvite(h, s.invite);
      WithoutKeepsRest(Grown(h, s), {e}, now);
      NewcomerStays(h, s, e);
    }
    FromParts(h', now);
  }

  lemma GrownFiles(h: Hub, s: Session)
    ensures s.sid in Grown(h, s).sessions
  {
  }

  lemma JoinKeepsRest(h: Hub, s: Session, before: int, from: int, now: int)
    requires Invariant(h, before) && before <= from <= s.created <= now
    requires s.invite in h.invites && h.invites[s.invite].Usable(from) && (s.enc || h.invites[s.invite].allowPlain)
    ensures var g := Grown(h, s); SessionsWelcome(g) && OrderListsInvites(g) && PastIsPast(g, now)
    ensures IndexesAgree(h) && IndexTidy(h)
  {
    LaterKeeps(h, before, from);
    LaterKeeps(h, from, now);
    hide IndexesAgree, IndexTidy, Grown, SessionsWelcome, OrderListsInvites, PastIsPast;
    UsableIsNotRetired(h, s.invite, from);
    GrownKeepsRest(h, s, now);
  }

  /** A join that changes more than the newcomer's entries evicts one of the oldest. */
  lemma JoinEvicts(h: Hub, s: Session, now: int, h': Hub) returns (e: string)
    requires Joined(h, s, now, h') && h' != Grown(h, s)
    ensures e in SessionsOf(h, s.invite) && h' == Without(Grown(h, s), {e})
  {
    hide Grown, Without, SessionsOf;
    var m := SessionsOf(h, s.invite);
    e :| Oldest(m, e) && m[e].created < now && h' == Without(Grown(h, s), {e});
  }

  lemma JoinKeepsTidy(h: Hub, s: Session, before: int, now: int, h': Hub)
    requires IndexesAgree(h) && IndexTidy(h) && PastIsPast(h, before) && before < now && s.sid !in h.sessions
    requires Joined(h, s, now, h')
    ensures IndexesAgree(h') && IndexTidy(h')
  {
    GrownKeepsIndexes(h, s);
    if h' == Grown(h, s) {
      NotFull(h, s, before, now, h');
      GrownTidy(h, s);
    } else {
      hide *;
      var e := JoinEvicts(h, s, now, h');
      WithoutKeepsIndexes(Grown(h, s), {e});
      EvictedTidy(h, s, e);
    }
  }

  /** A session of a full invite is evicted whenever all of them are older than now. */
  lemma NotFull(h: Hub, s: Session, before: int, now: int, h': Hub)
    requires IndexesAgree(h) && PastIsPast(h, before) && before < now && s.sid !in h.sessions
    requires Joined(h, s, now, h') && h' == Grown(h, s)
    ensures |SessionsOf(h, s.invite)| < MAX_SESSIONS
  {
    var m := SessionsOf(h, s.invite);
    TabIsOfInvite(h, s.invite);
    hide IndexesAgree, SessionsOf;
    assert forall o :: o in m ==> m[o].created < now;
  }

  lemma TabIsOfInvite(h: Hub, id: string)
    requires IndexesAgree(h)
    ensures forall o :: o in SessionsOf(h, id) ==> o in h.sessions && h.sessions[o] == SessionsOf(h, id)[o]
  {
  }

  lemma EvictedTidy(h: Hub, s: Session, e: string)
    requires IndexesAgree(h) && IndexTidy(h) && s.sid !in h.sessions && e in SessionsOf(h, s.invite)
    ensures IndexTidy(Without(Grown(h, s), {e}))
  {
    var g := Grown(h, s);
    GrownKeepsIndexes(h, s);
    WithoutKeepsIndexes(g, {e});
    var w := Without(g, {e});
    forall id | id in w.byInvite ensures 0 < |w.byInvite[id]| <= MAX_SESSIONS {
      SmallerTab(g.byInvite[id], {e});
      if id == s.invite {
        assert (g.byInvite[id] - {e}).Keys == g.byInvite[id].Keys - {e};
        assert |g.byInvite[id].Keys - {e}| == |g.byInvite[id].Keys| - 1;
      }
    }
  }

  /** The limit of four survives a join exactly if the invite was not full or the clock has moved
      since some of its sessions was created. */
  lemma LimitHoldsIff(h: Hub, s: Session, now: int, h': Hub)
    requires IndexesAgree(h) && IndexTidy(h) && s.sid !in h.sessions && Joined(h, s, now, h')
    ensures |SessionsOf(h', s.invite)| <= MAX_SESSIONS
       <==> |SessionsOf(h, s.invite)| < MAX_SESSIONS
            || exists o :: o in SessionsOf(h, s.invite) && SessionsOf(h, s.invite)[o].created < now
  {
    var m := SessionsOf(h, s.invite);
    GrownKeepsIndexes(h, s);
    if |m| >= MAX_SESSIONS && exists o :: o in m && m[o].created < now {
      var e :| Oldest(m, e) && m[e].created < now && h' == Without(Grown(h, s), {e});
      EvictedTidy(h, s, e);
    }
  }

  /** A hub with one invite, which n guests have joined at one moment. */
  function Crowd(id: string, inv: Invite, now: int, n: nat): (h: Hub)
    ensures h.invites == map[id := inv] && h.order == [id] && h.announced == {}
  {
    if n == 0 then Hub(map[id := inv], [id], {}, map[], map[])
    else Grown(Crowd(id, inv, now, n - 1), Guest(id, now, n - 1))
  }

  function Guest(id: string, now: int, i: nat): Session { Session(seq(i, _ => 'g'), id, now, true) }

  lemma GuestIs(id: string, now: int, i: nat)
    ensures var s := Guest(id, now, i); |s.sid| == i && s.invite == id && s.created == now
  {
  }

  ghost predicate GuestsOf(sessions: Tab, now: int, n: nat)
  {
    forall sid :: sid in sessions ==> |sid| < n && sessions[sid].created == now
  }

  lemma OneMoreGuest(sessions: Tab, s: Session, now: int, n: nat)
    requires GuestsOf(sessions, now, n) && |s.sid| == n && s.created == now
    ensures GuestsOf(sessions[s.sid := s], now, n + 1) && s.sid !in sessions
  {
  }

  lemma CrowdStarts(id: string, inv: Invite, now: int)
    ensures var h := Crowd(id, inv, now, 0);
            Loaded(h) && IndexesAgree(h) && SessionsOf(h, id) == map[] && GuestsOf(h.sessions, now, 0)
  {
  }

  lemma CrowdGrows(id: string, inv: Invite, now: int, n: nat)
    ensures Crowd(id, inv, now, n + 1) == Grown(Crowd(id, inv, now, n), Guest(id, now, n))
  {
    hide Grown, Guest;
  }

  lemma {:induction false} CrowdSessions(id: string, inv: Invite, now: int, n: nat)
    ensures var h := Crowd(id, inv, now, n);
            IndexesAgree(h) && |SessionsOf(h, id)| == n && GuestsOf(h.sessions, now, n)
    decreases n
  {
    hide *;
    if n == 0 {
      CrowdStarts(id, inv, now);
    } else {
      var h, s := Crowd(id, inv, now, n - 1), Guest(id, now, n - 1);
      CrowdGrows(id, inv, now, n - 1);
      CrowdSessions(id, inv, now, n - 1);
      GuestIs(id, now, n - 1);
      OneMoreGuest(h.sessions, s, now, n - 1);
      GrownKeepsIndexes(h, s);
      GrownTable(h, s);
    }
  }

  lemma GrownTable(h: Hub, s: Session)
    ensures Grown(h, s).sessions == h.sessions[s.sid := s]
  {
  }

  lemma CrowdIsRoomy(id: string, inv: Invite, now: int, n: nat)
    ensures Roomy(SessionsOf(Crowd(id, inv, now, n), id), now)
  {
    hide *;
    var h := Crowd(id, inv, now, n);
    CrowdSessions(id, inv, now, n);
    TabIsOfInvite(h, id);
    SameMoment(h.sessions, SessionsOf(h, id), now, n);
  }

  lemma SameMoment(sessions: Tab, m: Tab, now: int, n: nat)
    requires GuestsOf(sessions, now, n) && forall o :: o in m ==> o in sessions && sessions[o] == m[o]
    ensures Roomy(m, now)
  {
  }

  /** Guests who say hello at one moment all stay: hello n + 1 leaves n + 1 sessions, whatever n is. */
  lemma CrowdAtOneMoment(id: string, inv: Invite, now: int, n: nat)
    requires inv.Usable(now)
    ensures Loaded(Crowd(id, inv, now, 0))
    ensures Next(Crowd(id, inv, now, n), Hello(id, inv.token, Guest(id, now, n).sid, Offer(true, true, true), now),
                 now, now, Crowd(id, inv, now, n + 1))
    ensures |SessionsOf(Crowd(id, inv, now, n), id)| == n
  {
    CrowdStarts(id, inv, now);
    CrowdSessions(id, inv, now, n);
    CrowdIsRoomy(id, inv, now, n);
    GuestIs(id, now, n);
    hide IndexesAgree, SessionsOf, Grown, Roomy, Loaded;
  }

  lemma CreateKeeps(h: Hub, id: string, inv: Invite, now: int)
    requires Invariant(h, now) && id !in h.invites && id !in h.announced && !inv.revoked
    ensures Invariant(Created(h, id, inv), now)
  {
    SameTables(h, Created(h, id, inv));
    CreatedKeepsRest(h, id, inv, now);
    hide *;
    FromParts(Created(h, id, inv), now);
  }

  lemma CreatedKeepsRest(h: Hub, id: string, inv: Invite, now: int)
    requires SessionsWelcome(h) && OrderListsInvites(h) && PastIsPast(h, now)
    requires id !in h.invites && id !in h.announced && !inv.revoked
    ensures var c := Created(h, id, inv); SessionsWelcome(c) && OrderListsInvites(c) && PastIsPast(c, now)
  {
  }

  // ---- runs

  datatype Op =
    | Create(id: string, inv: Invite)
    | Hello(id: string, token: string, sid: string, offer: Offer, created: int)
    | Drop(sids: set<string>)
    | Revoke(id: string)
    | Remove(id: string)
    | SweepExpired(clock: string -> int)

  /** One handler call, with its first and its last reading of the clock.  Fresh invite and session
      ids have not been used before; Drop stands for a guest's farewell, a reaped idle session, or a
      shutdown. */
  ghost predicate Next(h: Hub, op: Op, from: int, now: int, h': Hub)
  {
    match op
    case Create(id, inv) =>
      id !in h.invites && id !in h.announced && !inv.revoked
      && h' == if HasRoom(h) then Created(h, id, inv) else h
    case Hello(id, token, sid, offer, created) =>
      sid !in h.sessions && from <= created <= now
      && if Admitted(h, id, token, from) && offer.Acceptable(h.invites[id])
         then Joined(h, Session(sid, id, created, offer.hasKey), now, h') else h' == h
    case Drop(sids) => h' == Without(h, sids)
    case Revoke(id) => h' == Revoked(h, id)
    case Remove(id) => h' == Removed(h, id)
    case SweepExpired(clock) => (forall id :: from <= clock(id) <= now) && h' == SweptExpired(h, clock)
  }

  datatype Call = Call(op: Op, from: int, at: int)

  /** Before the first call there are only invites, as read from the file. */
  ghost predicate Loaded(h: Hub)
  {
    h.sessions == map[] && h.byInvite == map[] && h.announced == {} && OrderListsInvites(h)
  }

  /** `states` are the tables before the first call and after each call; the clock strictly advances. */
  ghost predicate IsRun(calls: seq<Call>, states: seq<Hub>)
  {
    && |states| == |calls| + 1
    && Loaded(states[0])
    && (forall i :: 0 <= i < |calls| ==> Next(states[i], calls[i].op, calls[i].from, calls[i].at, states[i + 1]))
    && (forall i :: 0 <= i < |calls| ==> calls[i].from <= calls[i].at)
    && (forall i :: 0 < i < |calls| ==> calls[i - 1].at < calls[i].from)
  }

  lemma HelloKeeps(h: Hub, op: Op, before: int, from: int, now: int, h': Hub)
    requires Invariant(h, before) && before < from <= now && op.Hello? && Next(h, op, from, now, h')
    ensures Invariant(h', now)
  {
    LaterKeeps(h, before, now);
    hide Invariant, Joined;
    if Admitted(h, op.id, op.token, from) && op.offer.Acceptable(h.invites[op.id]) {
      JoinKeeps(h, Session(op.sid, op.id, op.created, op.offer.hasKey), before, from, now, h');
    }
  }

  /** What a call other than a hello leaves. */
  lemma OtherCall(h: Hub, op: Op, from: int, now: int, h': Hub)
    requires Next(h, op, from, now, h')
    ensures op.Create? ==>
              op.id !in h.invites && op.id !in h.announced && !op.inv.revoked
              && (h' == Created(h, op.id, op.inv) || h' == h)
    ensures op.Drop? ==> h' == Without(h, op.sids)
    ensures op.Revoke? ==> h' == Revoked(h, op.id)
    ensures op.Remove? ==> h' == Removed(h, op.id)
    ensures op.SweepExpired? ==> h' == SweptExpired(h, op.clock) && forall id :: op.clock(id) <= now
  {
    hide Created, Without, Revoked, Removed, SweptExpired, Admitted, Joined;
  }

  lemma NextKeeps(h: Hub, op: Op, before: int, from: int, now: int, h': Hub)
    requires Invariant(h, before) && before < from <= now && Next(h, op, from, now, h')
    ensures Invariant(h', now)
  {
    hide *;
    OtherCall(h, op, from, now, h');
    LaterKeeps(h, before, now);
    match op
    case Create(id, inv) => if h' != h { CreateKeeps(h, id, inv, now); }
    case Hello(_, _, _, _, _) => HelloKeeps(h, op, before, from, now, h');
    case Drop(sids) => WithoutKeeps(h, sids, now);
    case Revoke(id) => RevokeKeeps(h, id, now);
    case Remove(id) => RemoveKeeps(h, id, now);
    case SweepExpired(clock) => SweepKeeps(h, clock, now);
  }

  /** The tables agree after every call of every run. */
  lemma {:induction false} RunKeepsInvariant(calls: seq<Call>, states: seq<Hub>, i: nat)
    requires IsRun(calls, states) && 0 < i <= |calls|
    ensures Invariant(states[i], calls[i - 1].at)
    decreases i
  {
    hide Next, Invariant;
    var call, before := calls[i - 1], if i == 1 then calls[0].from - 1 else calls[i - 2].at;
    if i == 1 {
      LoadedIsFine(states[0], before);
    } else {
      RunKeepsInvariant(calls, states, i - 1);
    }
    NextKeeps(states[i - 1], call.op, before, call.from, call.at, states[i]);
  }

  lemma LoadedIsFine(h: Hub, now: int)
    requires Loaded(h)
    ensures Invariant(h, now)
  {
  }

  // ---- the handlers

  lemma WithoutTwice(h: Hub, s: set<string>, t: set<string>)
    ensures Without(Without(h, s), t) == Without(h, s + t)
  {
    var a, b := Without(Without(h, s), t), Without(h, s + t);
    assert a.sessions == b.sessions;
    forall id | id in h.byInvite ensures (h.byInvite[id] - s) - t == h.byInvite[id] - (s + t) { }
    assert a.byInvite == b.byInvite;
  }

  lemma NoKeys(m: Tab)
    ensures m.Keys == {} <==> m == map[]
  {
  }

  lemma WithoutNone(h: Hub)
    requires NoEmpties(h)
    ensures Without(h, {}) == h
  {
    var w := Without(h, {});
    forall id | id in h.byInvite ensures id in w.byInvite && w.byInvite[id] == h.byInvite[id] {
      NoKeys(h.byInvite[id]);
      assert h.byInvite[id] - {} == h.byInvite[id];
    }
    assert w.byInvite == h.byInvite && w.sessions == h.sessions;
  }

  lemma WithoutKeepsNoEmpties(h: Hub, sids: set<string>)
    requires NoEmpties(h)
    ensures NoEmpties(Without(h, sids))
  {
    var w := Without(h, sids);
    forall id | id in w.byInvite ensures w.byInvite[id] != map[] {
      assert w.byInvite[id].Keys == h.byInvite[id].Keys - sids;
    }
  }

  lemma StaysConsistent(h: Hub, sids: set<string>)
    requires IndexesAgree(h) && NoEmpties(h)
    ensures IndexesAgree(Without(h, sids)) && NoEmpties(Without(h, sids))
  {
    WithoutKeepsIndexes(h, sids);
    WithoutKeepsNoEmpties(h, sids);
  }

  lemma GrownStaysConsistent(h: Hub, s: Session)
    requires IndexesAgree(h) && NoEmpties(h) && s.sid !in h.sessions
    ensures IndexesAgree(Grown(h, s)) && NoEmpties(Grown(h, s))
  {
    GrownKeepsIndexes(h, s);
    hide IndexesAgree;
    assert s.sid in SessionsOf(h, s.invite)[s.sid := s];
  }

  lemma TabKeys(h: Hub, id: string)
    requires IndexesAgree(h)
    ensures forall sid :: sid in SessionsOf(h, id) <==> sid in h.sessions && h.sessions[sid].invite == id
  {
  }

  lemma RevokedKeys(h: Hub, id: string)
    ensures Revoked(h, id).invites.Keys == h.invites.Keys
    ensures id !in h.invites ==> Revoked(h, id) == h && Removed(h, id) == h
  {
    if id in h.invites { RevokedKeepsLists(h, id); }
  }

  /** The index after one session goes: only the entry of its own invite changes. */
  function IndexWithout(h: Hub, sid: string, id: string): map<string, Tab>
  {
    var rest := SessionsOf(h, id) - {sid};
    if rest == map[] then h.byInvite - {id} else h.byInvite[id := rest]
  }

  lemma SameEntries(index: map<string, Tab>, w: map<string, Tab>)
    requires forall id :: id in w ==> id in index
    requires forall id :: id in index ==> id in w && w[id] == index[id]
    ensures w == index
  {
  }

  lemma StrangerNotFiled(h: Hub, sid: string)
    requires IndexesAgree(h) && NoEmpties(h) && sid !in h.sessions
    ensures forall id :: id in h.byInvite ==> sid !in h.byInvite[id] && h.byInvite[id] != map[]
    ensures h.sessions - {sid} == h.sessions
  {
  }

  lemma WithoutEntry(h: Hub, sids: set<string>, id: string)
    requires id in h.byInvite && h.byInvite[id].Keys - sids != {}
    ensures id in Without(h, sids).byInvite && Without(h, sids).byInvite[id] == h.byInvite[id] - sids
  {
  }

  lemma WithoutStranger(h: Hub, sid: string)
    requires IndexesAgree(h) && NoEmpties(h) && sid !in h.sessions
    ensures Without(h, {sid}) == h
  {
    var w := Without(h, {sid});
    assert w == h.(sessions := w.sessions, byInvite := w.byInvite);
    hide *;
    StrangerNotFiled(h, sid);
    WithoutParts(h, {sid});
    forall id | id in h.byInvite ensures id in w.byInvite && w.byInvite[id] == h.byInvite[id] {
      OthersStay(h.byInvite[id], sid);
      WithoutEntry(h, {sid}, id);
    }
    SameEntries(h.byInvite, w.byInvite);
  }

  lemma WithoutOne(h: Hub, sid: string)
    requires IndexesAgree(h) && NoEmpties(h)
    ensures sid !in h.sessions ==> Without(h, {sid}) == h
    ensures sid in h.sessions ==>
              h.sessions[sid].invite in h.byInvite
              && Without(h, {sid}) == h.(sessions := h.sessions - {sid},
                                         byInvite := IndexWithout(h, sid, h.sessions[sid].invite))
  {
    if sid in h.sessions { OwnIndex(h, sid); } else { WithoutStranger(h, sid); }
    hide IndexesAgree, NoEmpties, IndexWithout;
  }

  lemma IndexWithoutIs(h: Hub, sid: string, id: string)
    requires id in h.byInvite
    ensures var m := h.byInvite[id] - {sid};
            IndexWithout(h, sid, id) == if m == map[] then h.byInvite - {id} else h.byInvite[id := m]
  {
  }

  /** Takes sid out of the entry of id; an entry left empty goes as well. */
  method RemoveFrom(index: map<string, Tab>, id: string, sid: string) returns (r: map<string, Tab>)
    requires id in index
    ensures r == if index[id] - {sid} == map[] then index - {id} else index[id := index[id] - {sid}]
  {
    var m := index[id] - {sid};
    if |m| == 0 {
      return index - {id};
    }
    return index[id := m];
  }

  lemma OthersStay(m: Tab, sid: string)
    requires sid !in m && m != map[]
    ensures m - {sid} == m && m.Keys - {sid} != {}
  {
    NoKeys(m);
  }

  lemma OthersUntouched(h: Hub, sid: string)
    requires IndexesAgree(h) && NoEmpties(h) && sid in h.sessions
    ensures forall id :: id in h.byInvite && id != h.sessions[sid].invite ==>
              id in Without(h, {sid}).byInvite && Without(h, {sid}).byInvite[id] == h.byInvite[id]
  {
    var w := Without(h, {sid}).byInvite;
    forall id | id in h.byInvite && id != h.sessions[sid].invite ensures id in w && w[id] == h.byInvite[id] {
      assert sid !in h.byInvite[id];
      OthersStay(h.byInvite[id], sid);
    }
  }

  lemma OwnIndex(h: Hub, sid: string)
    requires IndexesAgree(h) && NoEmpties(h) && sid in h.sessions
    ensures h.sessions[sid].invite in h.byInvite
    ensures Without(h, {sid}).byInvite == IndexWithout(h, sid, h.sessions[sid].invite)
  {
    var own := h.sessions[sid].invite;
    assert sid in SessionsOf(h, own);
    OthersUntouched(h, sid);
    OwnEntry(h, sid, own);
    WithoutParts(h, {sid});
    hide IndexesAgree, NoEmpties, SessionsOf, Without;
    OneEntry(h.byInvite, Without(h, {sid}).byInvite, own, SessionsOf(h, own) - {sid});
  }

  /** An index that differs from another in one entry. */
  lemma OneEntry(index: map<string, Tab>, w: map<string, Tab>, own: string, rest: Tab)
    requires own in index && forall id :: id in w ==> id in index
    requires forall id :: id in index && id != own ==> id in w && w[id] == index[id]
    requires (own in w <==> rest != map[]) && (own in w ==> w[own] == rest)
    ensures w == if rest == map[] then index - {own} else index[own := rest]
  {
  }

  lemma OwnEntry(h: Hub, sid: string, own: string)
    requires own in h.byInvite
    ensures var w, rest := Without(h, {sid}).byInvite, SessionsOf(h, own) - {sid};
            own in w <==> rest != map[]
    ensures own in Without(h, {sid}).byInvite ==>
              Without(h, {sid}).byInvite[own] == SessionsOf(h, own) - {sid}
  {
    var rest := SessionsOf(h, own) - {sid};
    NoKeys(rest);
    assert rest.Keys == h.byInvite[own].Keys - {sid};
  }

  lemma NothingRetired(h: Hub, clock: string -> int)
    requires NoEmpties(h) && Retired(h, clock) == {}
    ensures SweptExpired(h, clock) == h
  {
    WithoutNone(h);
    assert SessionsOfAll(h, {}) == {};
    assert h.announced + {} == h.announced;
    hide Without, NoEmpties;
  }

  /** A list keeps its order when one entry is taken out. */
  lemma {:induction false} WithoutFirstIs(s: seq<string>, x: string, k: nat)
    requires k < |s| && s[k] == x && x !in s[..k]
    ensures WithoutFirst(s, x) == s[..k] + s[k + 1..]
    decreases k
  {
    if k > 0 {
      assert s[0] == s[..k][0];
      assert s[1..][..k - 1] == s[..k][1..];
      WithoutFirstIs(s[1..], x, k - 1);
    }
  }

  lemma {:induction false} NothingToRemove(s: seq<string>, x: string)
    requires x !in s
    ensures WithoutFirst(s, x) == s
  {
    if s != [] {
      NothingToRemove(s[1..], x);
      assert s == [s[0]] + s[1..];
    }
  }

  method RemoveFirst(s: seq<string>, x: string) returns (r: seq<string>)
    ensures r == WithoutFirst(s, x)
  {
    hide WithoutFirst;
    var i := 0;
    while i < |s| && s[i] != x
      invariant 0 <= i <= |s| && x !in s[..i]
    {
      assert s[..i + 1] == s[..i] + [s[i]];
      i := i + 1;
    }
    if i < |s| {
      WithoutFirstIs(s, x, i);
      return s[..i] + s[i + 1..];
    }
    assert s[..i] == s;
    NothingToRemove(s, x);
    return s;
  }

  class Gateway {
    var invites: map<string, Invite>
    var order: seq<string>
    var announced: set<string>
    var sessions: Tab
    var byInvite: map<string, Tab>
    var lastUse: map<string, int>

    ghost function H(): Hub
      reads this
    {
      Hub(invites, order, announced, sessions, byInvite)
    }

    ghost predicate Consistent()
      reads this
    {
      IndexesAgree(H()) && NoEmpties(H())
    }

    constructor ()
      ensures H() == Hub(map[], [], {}, map[], map[]) && Consistent()
    {
      invites, order, announced, sessions, byInvite, lastUse := map[], [], {}, map[], map[], map[];
    }

    method DropSession(sid: string)
      requires Consistent()
      modifies this
      ensures H() == Without(old(H()), {sid}) && Consistent()
      ensures lastUse == old(lastUse)
    {
      hide IndexesAgree, NoEmpties, Without, SessionsOf, IndexWithout;
      ghost var h := H();
      WithoutOne(h, sid);
      StaysConsistent(h, {sid});
      if sid !in sessions {
        return;
      }
      var s := sessions[sid];
      sessions := sessions - {sid};
      if s.invite in byInvite {
        byInvite := RemoveFrom(byInvite, s.invite, sid);
        assert byInvite == IndexWithout(h, sid, s.invite) by { IndexWithoutIs(h, sid, s.invite); }
      }
    }

    method DropAll(sids: set<string>)
      requires Consistent()
      modifies this
      ensures H() == Without(old(H()), sids) && Consistent()
      ensures lastUse == old(lastUse)
    {
      hide IndexesAgree, NoEmpties, Without;
      ghost var h := H();
      WithoutNone(h);
      assert sids - sids == {};
      var rest := sids;
      while rest != {}
        invariant rest <= sids && Consistent() && H() == Without(h, sids - rest)
        invariant lastUse == old(lastUse)
        decreases rest
      {
        var sid :| sid in rest;
        DropSession(sid);
        WithoutTwice(h, sids - rest, {sid});
        assert sids - rest + {sid} == sids - (rest - {sid});
        rest := rest - {sid};
      }
      assert sids - {} == sids;
    }

    method Revoke(id: string) returns (found: bool)
      requires Consistent()
      modifies this
      ensures H() == Revoked(old(H()), id) && Consistent()
      ensures found <==> id in old(invites)
    {
      hide IndexesAgree, NoEmpties, Without;
      if id !in invites {
        return false;
      }
      ghost var h := H();
      invites := invites[id := invites[id].(revoked := true)];
      ghost var marked := H();
      SameTables(h, marked);
      var sids := if id in byInvite then byInvite[id].Keys else {};
      assert marked == h.(invites := h.invites[id := h.invites[id].(revoked := true)]);
      assert sids == SessionsOf(h, id).Keys;
      DropAll(sids);
      return true;
    }

    method Remove(id: string) returns (found: bool)
      requires Consistent()
      modifies this
      ensures H() == Removed(old(H()), id) && Consistent()
      ensures found <==> id in old(invites)
    {
      RevokedKeys(H(), id);
      hide IndexesAgree, NoEmpties, Revoked, WithoutFirst;
      var ok := Revoke(id);
      if id !in invites {
        return false;
      }
      ghost var r := H();
      invites := invites - {id};
      order := RemoveFirst(order, id);
      SameTables(r, H());
      return true;
    }

    /** Files a new invite, unless there are sixty-four already. */
    method Create(id: string, inv: Invite) returns (ok: bool)
      requires Consistent() && id !in invites
      modifies this
      ensures ok <==> HasRoom(old(H()))
      ensures H() == (if ok then Created(old(H()), id, inv) else old(H())) && Consistent()
    {
      ghost var h := H();
      hide IndexesAgree, NoEmpties;
      if |invites| >= MAX_INVITES {
        return false;
      }
      invites := invites[id := inv];
      order := order + [id];
      SameTables(h, H());
      return true;
    }

    method InviteFor(id: string, token: string, now: int) returns (ok: bool)
      ensures ok <==> Admitted(H(), id, token, now)
    {
      if id !in invites {
        return false;
      }
      return invites[id].token == token && invites[id].Usable(now);
    }

    method SweepExpired(clock: string -> int)
      requires Consistent()
      modifies this
      ensures H() == SweptExpired(old(H()), clock) && Consistent()
    {
      ghost var h := H();
      hide IndexesAgree, NoEmpties, Without;
      var retired, sids := CollectExpired(clock);
      announced := announced + retired;
      SameTables(h, H());
      if |retired| == 0 {
        NothingRetired(h, clock);
        return;
      }
      DropAll(sids);
    }

    /** The first part of the sweep: which invites to retire, and their sessions. */
    method CollectExpired(clock: string -> int) returns (retired: set<string>, sids: set<string>)
      requires Consistent()
      ensures retired == Retired(H(), clock) && sids == SessionsOfAll(H(), retired)
    {
      ghost var h := H();
      forall id ensures forall sid :: sid in SessionsOf(h, id) <==> sid in sessions && sessions[sid].invite == id {
        TabKeys(h, id);
      }
      hide IndexesAgree, NoEmpties;
      retired, sids := {}, {};
      var rest := invites.Keys;
      while rest != {}
        invariant rest <= invites.Keys
        invariant forall id :: id in retired <==> id in Retired(h, clock) && id !in rest
        invariant forall sid :: sid in sids <==> sid in sessions && sessions[sid].invite in retired
        decreases rest
      {
        var id :| id in rest;
        rest := rest - {id};
        if invites[id].revoked || !invites[id].Expired(clock(id)) || id in announced {
          continue;
        }
        retired := retired + {id};
        if id in byInvite {
          sids := sids + byInvite[id].Keys;
        }
      }
    }

    /** Admits a guest whose invite is checked at `from`; joined says whether a session was created. */
    method Hello(id: string, token: string, sid: string, offer: Offer, from: int, created: int, now: int)
      returns (joined: bool)
      requires Consistent() && sid !in sessions
      modifies this
      ensures Consistent()
      ensures joined <==> Admitted(old(H()), id, token, from) && offer.Acceptable(old(invites)[id])
      ensures if joined then Joined(old(H()), Session(sid, id, created, offer.hasKey), now, H()) else H() == old(H())
    {
      ghost var h := H();
      hide IndexesAgree, NoEmpties, Without;
      joined := InviteFor(id, token, from);
      if !joined {
        return;
      }
      if !offer.versionOk || (offer.hasKey && !offer.keyOk) || (!offer.hasKey && !invites[id].allowPlain) {
        return false;
      }
      var s := Session(sid, id, created, offer.hasKey);
      hide Grown, SessionsOf;
      var evict := Insert(s, now);
      if evict.Some? {
        DropSession(evict.value);
      }
    }

    /** Files a session and picks the one it replaces, if its invite is full. */
    method Insert(s: Session, now: int) returns (evict: Option<string>)
      requires Consistent() && s.sid !in sessions
      modifies this
      ensures H() == Grown(old(H()), s) && Consistent()
      ensures Picked(SessionsOf(old(H()), s.invite), now, evict)
    {
      ghost var h := H();
      hide IndexesAgree, NoEmpties;
      var m := if s.invite in byInvite then byInvite[s.invite] else map[];
      evict := None;
      if |m| >= MAX_SESSIONS {
        evict := PickOldest(m, now);
      }
      sessions := sessions[s.sid := s];
      byInvite := byInvite[s.invite := m[s.sid := s]];
      lastUse := lastUse[s.sid := s.created];
      GrownStaysConsistent(h, s);
    }

    /** A request of a live session keeps it from idling. */
    method Find(id: string, sid: string, now: int) returns (found: bool)
      modifies this`lastUse
      ensures found <==> sid in sessions && sessions[sid].invite == id
      ensures lastUse == if found then old(lastUse)[sid := now] else old(lastUse)
    {
      if sid !in sessions || sessions[sid].invite != id {
        return false;
      }
      lastUse := lastUse[sid := now];
      return true;
    }

    /** Drops every session that has been idle for more than three minutes when its turn comes. */
    method Reap(clock: string -> int)
      requires Consistent()
      modifies this
      ensures H() == Without(old(H()), Idle(old(sessions), old(lastUse), clock)) && Consistent()
    {
      hide IndexesAgree, NoEmpties, Without;
      var dead := {};
      var rest := sessions.Keys;
      while rest != {}
        invariant rest <= sessions.Keys
        invariant dead == Idle(sessions, lastUse, clock) - rest
        decreases rest
      {
        var sid :| sid in rest;
        rest := rest - {sid};
        if clock(sid) - (if sid in lastUse then lastUse[sid] else 0) > SESSION_IDLE {
          dead := dead + {sid};
        }
      }
      assert dead == Idle(sessions, lastUse, clock);
      DropAll(dead);
    }
  }

  function Idle(sessions: Tab, lastUse: map<string, int>, clock: string -> int): set<string>
  {
    set sid | sid in sessions && clock(sid) - (if sid in lastUse then lastUse[sid] else 0) > SESSION_IDLE
  }

  /** The eviction loop: the oldest of the sessions created before now. */
  method PickOldest(m: Tab, now: int) returns (evict: Option<string>)
    ensures evict.Some? ==> Oldest(m, evict.value) && m[evict.value].created < now
    ensures evict.None? ==> forall o :: o in m ==> m[o].created >= now
  {
    var oldest := now;
    evict := None;
    var rest := m.Keys;
    while rest != {}
      invariant rest <= m.Keys && oldest <= now
      invariant evict.None? ==> oldest == now
      invariant evict.Some? ==> evict.value in m && m[evict.value].created == oldest < now
      invariant forall o :: o in m && o !in rest ==> oldest <= m[o].created
      decreases rest
    {
      var id :| id in rest;
      rest := rest - {id};
      if m[id].created < oldest {
        oldest, evict := m[id].created, Some(id);
      }
    }
  }

  // ---- who stays and who goes

  /** A revocation takes away exactly the sessions of its invite. */
  lemma RevokeExactly(h: Hub, id: string, sid: string)
    requires IndexesAgree(h) && id in h.invites
    ensures var r := Revoked(h, id);
            && (sid in r.sessions <==> sid in h.sessions && h.sessions[sid].invite != id)
            && (sid in r.sessions ==> r.sessions[sid] == h.sessions[sid])
            && r.invites == h.invites[id := h.invites[id].(revoked := true)]
  {
    TabKeys(h, id);
    RevokedKeepsLists(h, id);
    hide IndexesAgree, SessionsOf;
  }

  /** A removal does that, and forgets the invite. */
  lemma RemoveExactly(h: Hub, id: string, sid: string)
    requires IndexesAgree(h) && id in h.invites
    ensures var r := Removed(h, id);
            && (sid in r.sessions <==> sid in h.sessions && h.sessions[sid].invite != id)
            && (sid in r.sessions ==> r.sessions[sid] == h.sessions[sid])
            && r.invites == h.invites - {id}
  {
    RevokeExactly(h, id, sid);
    hide IndexesAgree, Revoked, WithoutFirst;
  }

  /** A sweep takes away exactly the sessions of invites that it finds expired and has not retired before. */
  lemma SweepExactly(h: Hub, clock: string -> int, sid: string)
    requires sid in h.sessions
    ensures var id, w := h.sessions[sid].invite, SweptExpired(h, clock);
            && (sid !in w.sessions <==>
                  id in h.invites && id !in h.announced && !h.invites[id].revoked
                  && h.invites[id].expires > 0 && clock(id) / 1_000_000 > h.invites[id].expires)
            && (sid in w.sessions ==> w.sessions[sid] == h.sessions[sid])
  {
    WithoutParts(h.(announced := h.announced + Retired(h, clock)), SessionsOfAll(h, Retired(h, clock)));
    hide Without;
  }

  /** A reap takes away exactly the sessions last used more than three minutes before. */
  lemma ReapExactly(h: Hub, lastUse: map<string, int>, clock: string -> int, sid: string)
    requires sid in h.sessions
    ensures var w, last := Without(h, Idle(h.sessions, lastUse, clock)), if sid in lastUse then lastUse[sid] else 0;
            && (sid !in w.sessions <==> clock(sid) - last > 180_000_000_000)
            && (sid in w.sessions ==> w.sessions[sid] == h.sessions[sid])
  {
    WithoutParts(h, Idle(h.sessions, lastUse, clock));
    hide Without;
  }

  /** A join takes away at most one session, of its own invite, and none that stays there is older. */
  lemma JoinEvictsOldest(h: Hub, s: Session, now: int, h': Hub, e: string, o: string)
    requires IndexesAgree(h) && s.sid !in h.sessions && Joined(h, s, now, h')
    requires e in h.sessions && e !in h'.sessions
    ensures |SessionsOf(h, s.invite)| >= 4 && h.sessions[e].invite == s.invite && h.sessions[e].created < now
    ensures o in h.sessions && o != e ==> o in h'.sessions && h'.sessions[o] == h.sessions[o]
    ensures o in h.sessions && h.sessions[o].invite == s.invite ==> h.sessions[e].created <= h.sessions[o].created
  {
    GrownTable(h, s);
    TabKeys(h, s.invite);
    TabIsOfInvite(h, s.invite);
    JoinedParts(h, s, now, h', e);
    WithoutParts(Grown(h, s), {e});
    hide IndexesAgree, SessionsOf, Grown, Without;
  }

  lemma JoinedParts(h: Hub, s: Session, now: int, h': Hub, e: string)
    requires Joined(h, s, now, h') && e in h.sessions && e !in h'.sessions
    ensures var m := SessionsOf(h, s.invite);
            !Roomy(m, now) && Oldest(m, e) && m[e].created < now && h' == Without(Grown(h, s), {e})
  {
    GrownTable(h, s);
    hide SessionsOf, Grown;
    if !Roomy(SessionsOf(h, s.invite), now) {
      var m := SessionsOf(h, s.invite);
      var x :| Oldest(m, x) && m[x].created < now && h' == Without(Grown(h, s), {x});
      WithoutParts(Grown(h, s), {x});
      hide Without;
      assert x == e;
    }
  }

  // ---- who gets in

  /** The hello that a session came from: the token of its own invite, which was neither revoked nor expired when it
      was checked, the right version, and a key that can be agreed on or leave to go without. */
  ghost predicate CameFrom(s: Session, h: Hub, op: Op, from: int)
  {
    && op.Hello? && op.sid == s.sid && op.id == s.invite && op.created == s.created
    && s.invite in h.invites
    && var inv := h.invites[s.invite];
       && op.token == inv.token && !inv.revoked
       && (inv.expires <= 0 || from / 1_000_000 <= inv.expires)
       && op.offer.versionOk
       && s.enc == op.offer.hasKey && (if s.enc then op.offer.keyOk else inv.allowPlain)
  }

  lemma AdmissionMeans(h: Hub, op: Op, from: int)
    requires op.Hello?
    ensures Admitted(h, op.id, op.token, from) && op.offer.Acceptable(h.invites[op.id])
       <==> CameFrom(Session(op.sid, op.id, op.created, op.offer.hasKey), h, op, from)
  {
  }

  /** A hello opens a session exactly if it meets all of that. */
  lemma HelloOpensIff(h: Hub, op: Op, from: int, now: int, h': Hub)
    requires op.Hello? && Next(h, op, from, now, h') && IndexesAgree(h)
    ensures var s := Session(op.sid, op.id, op.created, op.offer.hasKey);
            && (s.sid in h'.sessions <==> CameFrom(s, h, op, from))
            && (s.sid in h'.sessions ==> h'.sessions[s.sid] == s)
            && (!CameFrom(s, h, op, from) ==> h' == h)
  {
    var s := Session(op.sid, op.id, op.created, op.offer.hasKey);
    AdmissionMeans(h, op, from);
    hide CameFrom, Admitted, IndexesAgree, Joined;
    if CameFrom(s, h, op, from) { JoinOpens(h, s, now, h'); }
  }

  lemma JoinOpens(h: Hub, s: Session, now: int, h': Hub)
    requires IndexesAgree(h) && s.sid !in h.sessions && Joined(h, s, now, h')
    ensures s.sid in h'.sessions && h'.sessions[s.sid] == s
    ensures forall sid :: sid in h'.sessions && sid != s.sid ==>
              sid in h.sessions && h'.sessions[sid] == h.sessions[sid]
  {
    hide *;
    GrownTable(h, s);
    if h' != Grown(h, s) {
      var e := JoinEvicts(h, s, now, h');
      TabIsOfInvite(h, s.invite);
      WithoutParts(Grown(h, s), {e});
    }
  }

  lemma SessionsOnlyFromHello(h: Hub, op: Op, from: int, now: int, h': Hub, sid: string)
    requires Next(h, op, from, now, h') && IndexesAgree(h) && sid in h'.sessions
    ensures (sid in h.sessions && h'.sessions[sid] == h.sessions[sid]) || CameFrom(h'.sessions[sid], h, op, from)
  {
    if op.Hello? {
      HelloSessions(h, op, from, now, h');
      hide *;
    } else {
      OtherCall(h, op, from, now, h');
      hide *;
      OtherSessions(h, op, h');
    }
  }

  lemma HelloSessions(h: Hub, op: Op, from: int, now: int, h': Hub)
    requires op.Hello? && Next(h, op, from, now, h') && IndexesAgree(h)
    ensures forall sid :: sid in h'.sessions ==>
              (sid in h.sessions && h'.sessions[sid] == h.sessions[sid]) || CameFrom(h'.sessions[sid], h, op, from)
  {
    var s := Session(op.sid, op.id, op.created, op.offer.hasKey);
    AdmissionMeans(h, op, from);
    hide CameFrom, Admitted, IndexesAgree, Joined;
    if CameFrom(s, h, op, from) { JoinOpens(h, s, now, h'); }
  }

  lemma OtherSessions(h: Hub, op: Op, h': Hub)
    requires op.Create? ==> h'.sessions == h.sessions
    requires op.Drop? ==> h' == Without(h, op.sids)
    requires op.Revoke? ==> h' == Revoked(h, op.id)
    requires op.Remove? ==> h' == Removed(h, op.id)
    requires op.SweepExpired? ==> h' == SweptExpired(h, op.clock)
    requires !op.Hello?
    ensures forall sid :: sid in h'.sessions ==> sid in h.sessions && h'.sessions[sid] == h.sessions[sid]
  {
    hide SessionsOf, Retired, SessionsOfAll, WithoutFirst;
  }

  /** Over every run, each session in the table came from an earlier hello that met all the conditions then. */
  lemma {:induction false} EverySessionCameFromHello(calls: seq<Call>, states: seq<Hub>, i: nat, sid: string)
    requires IsRun(calls, states) && i <= |calls| && sid in states[i].sessions
    ensures exists j :: 0 <= j < i && CameFrom(states[i].sessions[sid], states[j], calls[j].op, calls[j].from)
    decreases i
  {
    hide Next, CameFrom, IndexesAgree;
    if i > 0 {
      var call := calls[i - 1];
      RunKeepsIndexes(calls, states, i - 1);
      SessionsOnlyFromHello(states[i - 1], call.op, call.from, call.at, states[i], sid);
      if !CameFrom(states[i].sessions[sid], states[i - 1], call.op, call.from) {
        EverySessionCameFromHello(calls, states, i - 1, sid);
      }
    }
  }

  lemma RunKeepsIndexes(calls: seq<Call>, states: seq<Hub>, i: nat)
    requires IsRun(calls, states) && i <= |calls|
    ensures IndexesAgree(states[i])
  {
    hide Next;
    if i == 0 {
      LoadedIsFine(states[0], 0);
    } else {
      RunKeepsInvariant(calls, states, i);
    }
  }

  // ---- how many invites

  lemma NextInvites(h: Hub, op: Op, from: int, now: int, h': Hub)
    requires Next(h, op, from, now, h') && |h.invites| <= 64
    ensures |h'.invites| <= 64
  {
    if op.Hello? {
      HelloInvites(h, op, from, now, h');
    } else if op.Create? {
      CreateInvites(h, op, from, now, h');
    } else {
      OtherCall(h, op, from, now, h');
      hide Next, SessionsOf, Retired, SessionsOfAll, WithoutFirst;
      FewerInvites(h, h');
    }
  }

  lemma HelloInvites(h: Hub, op: Op, from: int, now: int, h': Hub)
    requires op.Hello? && Next(h, op, from, now, h')
    ensures h'.invites == h.invites
  {
    hide Admitted, SessionsOf, Roomy, Oldest;
  }

  lemma CreateInvites(h: Hub, op: Op, from: int, now: int, h': Hub)
    requires op.Create? && Next(h, op, from, now, h') && |h.invites| <= 64
    ensures |h'.invites| <= 64
  {
  }

  lemma FewerInvites(h: Hub, h': Hub)
    requires h'.invites.Keys <= h.invites.Keys
    ensures |h'.invites| <= |h.invites|
  {
    SubsetSize(h'.invites.Keys, h.invites.Keys);
    assert |h'.invites| == |h'.invites.Keys| && |h.invites| == |h.invites.Keys|;
  }

  /** A hub that starts with at most sixty-four invites never has more. */
  lemma {:induction false} InvitesBounded(calls: seq<Call>, states: seq<Hub>, i: nat)
    requires IsRun(calls, states) && i <= |calls| && |states[0].invites| <= 64
    ensures |states[i].invites| <= 64
    decreases i
  {
    hide Next;
    if i > 0 {
      InvitesBounded(calls, states, i - 1);
      NextInvites(states[i - 1], calls[i - 1].op, calls[i - 1].from, calls[i - 1].at, states[i]);
    }
  }
}
