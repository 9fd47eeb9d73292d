/** The gateway's handlers, taken apart into their critical sections, which may interleave in any way:
    what every interleaving keeps, and exactly which ones keep the rest. */
module GuestInterleaving {
  import opened Wrappers
  import opened GuestHub

  datatype Section =
    | Add(id: string, inv: Invite)                            // Create, once the kit is written
    | Mark(id: string)                                        // Revoke, which collects the sessions to drop
    | Forget(id: string)                                      // Remove, after Revoke
    | Retire(clock: string -> int)                            // the sweep, which collects as well
    | Insert(s: Session, now: int, evict: Option<string>)     // a hello, long after its invite was checked
    | DropOne(sid: string)                                    // dropSession, for whatever reason

  /** The tables, and the sessions that some handler has undertaken to drop: those that hellos replace,
      and those of retired invites. */
  datatype State = State(hub: Hub, evicting: set<string>, leaving: set<string>)

  function Start(h: Hub): State { State(h, {}, {}) }

  function Marked(h: Hub, id: string): Hub
  {
    if id in h.invites then h.(invites := h.invites[id := h.invites[id].(revoked := true)]) else h
  }

  function Forgotten(h: Hub, id: string): Hub
  {
    if id in h.invites then h.(invites := h.invites - {id}, order := WithoutFirst(h.order, id)) else h
  }

  function Victims(evict: Option<string>): set<string>
  {
    match evict case None => {} case Some(e) => {e}
  }

  function After(st: State, sec: Section): State
  {
    var h := st.hub;
    match sec
    case Add(id, inv) => st.(hub := Created(h, id, inv))
    case Mark(id) =>
      st.(hub := Marked(h, id), leaving := st.leaving + if id in h.invites then SessionsOf(h, id).Keys else {})
    case Forget(id) => st.(hub := Forgotten(h, id))
    case Retire(clock) =>
      st.(hub := h.(announced := h.announced + Retired(h, clock)),
          leaving := st.leaving + SessionsOfAll(h, Retired(h, clock)))
    case Insert(s, _, evict) => st.(hub := Grown(h, s), evicting := st.evicting + Victims(evict))
    case DropOne(sid) => State(Without(h, {sid}), st.evicting - {sid}, st.leaving - {sid})
  }

  /** New invite and session ids have not been used before, and Remove calls Revoke first. */
  ghost predicate Possible(st: State, sec: Section)
  {
    var h := st.hub;
    match sec
    case Add(id, inv) =>
      && id !in h.invites && id !in h.announced && !inv.revoked
      && forall sid :: sid in h.sessions ==> h.sessions[sid].invite != id
    case Forget(id) => id in h.invites ==> h.invites[id].revoked
    case Insert(s, now, evict) => s.sid !in h.sessions && Picked(SessionsOf(h, s.invite), now, evict)
    case _ => true
  }

  function AfterAll(st: State, secs: seq<Section>): State
    decreases |secs|
  {
    if secs == [] then st else AfterAll(After(st, secs[0]), secs[1..])
  }

  ghost predicate AllPossible(st: State, secs: seq<Section>)
    decreases |secs|
  {
    secs == [] || (Possible(st, secs[0]) && AllPossible(After(st, secs[0]), secs[1..]))
  }

  // ---- what every interleaving keeps

  ghost predicate SoundTables(h: Hub)
  {
    IndexesAgree(h) && NoEmpties(h) && OrderListsInvites(h)
  }

  /** What holds between any two critical sections. */
  ghost predicate Sound(st: State)
  {
    SoundTables(st.hub) && st.evicting <= st.hub.sessions.Keys && st.leaving <= st.hub.sessions.Keys
  }

  lemma StartIsSound(h: Hub)
    requires Loaded(h)
    ensures Sound(Start(h))
  {
  }

  lemma TablesStay(st: State, sec: Section)
    requires !sec.Insert? && !sec.DropOne?
    ensures After(st, sec).hub.sessions == st.hub.sessions && After(st, sec).hub.byInvite == st.hub.byInvite
    ensures After(st, sec).evicting == st.evicting
  {
  }

  lemma OrderStays(st: State, sec: Section)
    requires OrderListsInvites(st.hub) && Possible(st, sec)
    ensures OrderListsInvites(After(st, sec).hub)
  {
    hide SessionsOf, Retired, SessionsOfAll, Picked;
    if sec.Forget? && sec.id in st.hub.invites {
      WithoutFirstMembers(st.hub.order, sec.id);
      hide WithoutFirst;
    }
  }

  lemma TablesKeepSound(st: State, sec: Section)
    requires SoundTables(st.hub) && Possible(st, sec)
    ensures SoundTables(After(st, sec).hub)
  {
    OrderStays(st, sec);
    hide IndexesAgree, NoEmpties, OrderListsInvites, Picked;
    if sec.Insert? { GrownStaysConsistent(st.hub, sec.s); }
    else if sec.DropOne? { StaysConsistent(st.hub, {sec.sid}); }
    else {
      TablesStay(st, sec);
      SameTables(st.hub, After(st, sec).hub);
    }
  }

  lemma CollectedAreSessions(h: Hub, id: string, clock: string -> int)
    requires IndexesAgree(h)
    ensures SessionsOf(h, id).Keys <= h.sessions.Keys
    ensures SessionsOfAll(h, Retired(h, clock)) <= h.sessions.Keys
  {
    TabIsOfInvite(h, id);
    hide IndexesAgree, SessionsOf, Retired;
  }

  lemma OwedStay(st: State, sec: Section)
    requires Sound(st) && Possible(st, sec)
    ensures After(st, sec).evicting <= After(st, sec).hub.sessions.Keys
    ensures After(st, sec).leaving <= After(st, sec).hub.sessions.Keys
  {
    hide IndexesAgree, NoEmpties, OrderListsInvites, SessionsOf, Retired, SessionsOfAll, Without, Roomy, WithoutFirst;
    match sec
    case Mark(id) => CollectedAreSessions(st.hub, id, _ => 0);
    case Retire(clock) => CollectedAreSessions(st.hub, "", clock);
    case Insert(s, _, _) => CollectedAreSessions(st.hub, s.invite, _ => 0);
    case DropOne(sid) => WithoutParts(st.hub, {sid});
    case _ =>
  }

  lemma SectionKeepsSound(st: State, sec: Section)
    requires Sound(st) && Possible(st, sec)
    ensures Sound(After(st, sec))
  {
    TablesKeepSound(st, sec);
    OwedStay(st, sec);
    hide SoundTables, After, Possible;
  }

  lemma {:induction false} RunKeepsSound(st: State, secs: seq<Section>)
    requires Sound(st) && AllPossible(st, secs)
    ensures Sound(AfterAll(st, secs))
    decreases |secs|
  {
    hide Sound, After, Possible;
    if secs != [] {
      SectionKeepsSound(st, secs[0]);
      RunKeepsSound(After(st, secs[0]), secs[1..]);
    }
  }

  /** However the handlers interleave, the two indexes agree, no entry is empty, the order lists the
      invites, and only sessions in the table are to be dropped. */
  lemma InterleavingKeepsSound(h: Hub, secs: seq<Section>)
    requires Loaded(h) && AllPossible(Start(h), secs)
    ensures Sound(AfterAll(Start(h), secs))
  {
    StartIsSound(h);
    hide *;
    RunKeepsSound(Start(h), secs);
  }

  // ---- sessions of retired invites

  /** An invite that is neither removed, revoked, nor retired by a sweep. */
  predicate Live(h: Hub, id: string)
  {
    id in h.invites && !h.invites[id].revoked && id !in h.announced
  }

  /** Every session belongs to a live invite, or some handler has undertaken to drop it. When none has
      anything left to drop, every session belongs to a live invite. */
  ghost predicate Welcome(st: State)
  {
    forall sid :: sid in st.hub.sessions && sid !in st.leaving ==> Live(st.hub, st.hub.sessions[sid].invite)
  }

  ghost predicate AlwaysWelcome(st: State, secs: seq<Section>)
    decreases |secs|
  {
    Welcome(st) && (secs != [] ==> AlwaysWelcome(After(st, secs[0]), secs[1..]))
  }

  /** A hello that inserts finds its invite still live. */
  predicate InsertsLive(st: State, sec: Section)
  {
    sec.Insert? ==> Live(st.hub, sec.s.invite)
  }

  predicate AllInsertLive(st: State, secs: seq<Section>)
    decreases |secs|
  {
    secs == [] || (InsertsLive(st, secs[0]) && AllInsertLive(After(st, secs[0]), secs[1..]))
  }

  lemma InsertWelcomeIff(st: State, sec: Section)
    requires Sound(st) && Welcome(st) && Possible(st, sec) && sec.Insert?
    ensures Welcome(After(st, sec)) <==> Live(st.hub, sec.s.invite)
  {
    var s := sec.s;
    GrownParts(st.hub, s);
    hide SoundTables, SessionsOf, Picked;
    var h' := After(st, sec).hub;
    assert s.sid in h'.sessions && h'.sessions[s.sid] == s;
    assert forall id :: Live(h', id) <==> Live(st.hub, id);
  }

  lemma MarkWelcome(st: State, id: string)
    requires Sound(st) && Welcome(st)
    ensures Welcome(After(st, Mark(id)))
  {
    TabKeys(st.hub, id);
    hide IndexesAgree, NoEmpties, OrderListsInvites, SessionsOf;
  }

  lemma RetireWelcome(st: State, clock: string -> int)
    requires Welcome(st)
    ensures Welcome(After(st, Retire(clock)))
  {
    hide Retired;
  }

  lemma DropWelcome(st: State, sid: string)
    requires Welcome(st)
    ensures Welcome(After(st, DropOne(sid)))
  {
    WithoutParts(st.hub, {sid});
    assert After(st, DropOne(sid)).hub.invites == st.hub.invites;
    assert After(st, DropOne(sid)).hub.announced == st.hub.announced;
    hide Without;
  }

  lemma ListWelcome(st: State, sec: Section)
    requires Welcome(st) && Possible(st, sec) && (sec.Add? || sec.Forget?)
    ensures Welcome(After(st, sec))
  {
    hide WithoutFirst, Picked;
  }

  lemma SectionWelcomeIff(st: State, sec: Section)
    requires Sound(st) && Welcome(st) && Possible(st, sec)
    ensures Welcome(After(st, sec)) <==> InsertsLive(st, sec)
  {
    hide Sound, Welcome, Possible, After, Live;
    match sec
    case Add(_, _) => ListWelcome(st, sec);
    case Forget(_) => ListWelcome(st, sec);
    case Mark(id) => MarkWelcome(st, id);
    case Retire(clock) => RetireWelcome(st, clock);
    case Insert(_, _, _) => InsertWelcomeIff(st, sec);
    case DropOne(sid) => DropWelcome(st, sid);
  }

  lemma {:induction false} WelcomeFrom(st: State, secs: seq<Section>)
    requires Sound(st) && Welcome(st) && AllPossible(st, secs)
    ensures AlwaysWelcome(st, secs) <==> AllInsertLive(st, secs)
    decreases |secs|
  {
    hide Sound, Welcome, Possible, After, InsertsLive;
    if secs != [] {
      SectionWelcomeIff(st, secs[0]);
      SectionKeepsSound(st, secs[0]);
      if InsertsLive(st, secs[0]) { WelcomeFrom(After(st, secs[0]), secs[1..]); }
    }
  }

  /** However the handlers interleave: sessions of retired invites are always on their way out, exactly if
      every hello finds its invite still live when it inserts. */
  lemma WelcomeIff(h: Hub, secs: seq<Section>)
    requires Loaded(h) && AllPossible(Start(h), secs)
    ensures AlwaysWelcome(Start(h), secs) <==> AllInsertLive(Start(h), secs)
  {
    StartIsSound(h);
    assert Welcome(Start(h));
    hide *;
    WelcomeFrom(Start(h), secs);
  }

  // ---- one guest and one revocation

  predicate Inserts(secs: seq<Section>, sid: string)
  {
    exists i :: 0 <= i < |secs| && secs[i].Insert? && secs[i].s.sid == sid
  }

  ghost predicate Drops(secs: seq<Section>, sid: string)
  {
    DropOne(sid) in secs
  }

  /** Every insertion under the id of s is that of s. */
  ghost predicate OnlyAs(secs: seq<Section>, s: Session)
  {
    forall i :: 0 <= i < |secs| && secs[i].Insert? && secs[i].s.sid == s.sid ==> secs[i].s == s
  }

  ghost predicate Here(st: State, s: Session)
  {
    s.sid in st.hub.sessions && st.hub.sessions[s.sid] == s
  }

  lemma SectionOnOne(st: State, sec: Section, s: Session)
    requires Possible(st, sec) && (sec.Insert? && sec.s.sid == s.sid ==> sec.s == s)
    requires s.sid in st.hub.sessions ==> Here(st, s)
    ensures s.sid in After(st, sec).hub.sessions ==> Here(After(st, sec), s)
    ensures s.sid in After(st, sec).hub.sessions
       <==> (s.sid in st.hub.sessions && sec != DropOne(s.sid)) || (sec.Insert? && sec.s.sid == s.sid)
  {
    if sec.Insert? { GrownParts(st.hub, sec.s); }
    else if sec.DropOne? { WithoutParts(st.hub, {sec.sid}); }
    else { TablesStay(st, sec); }
    hide SessionsOf, Picked, Without, Retired, SessionsOfAll, Marked, Forgotten, Created;
  }

  /** A session that is here stays until it is dropped, and one that is not comes only by insertion. */
  lemma {:induction false} Tracked(st: State, secs: seq<Section>, s: Session)
    requires AllPossible(st, secs) && OnlyAs(secs, s)
    requires s.sid in st.hub.sessions ==> Here(st, s)
    ensures s.sid in AfterAll(st, secs).hub.sessions ==> Here(AfterAll(st, secs), s)
    ensures !Drops(secs, s.sid) ==>
              (s.sid in AfterAll(st, secs).hub.sessions <==> s.sid in st.hub.sessions || Inserts(secs, s.sid))
    ensures !Inserts(secs, s.sid) ==>
              (s.sid in AfterAll(st, secs).hub.sessions <==> s.sid in st.hub.sessions && !Drops(secs, s.sid))
    decreases |secs|
  {
    hide Possible, After;
    if secs != [] {
      var rest := secs[1..];
      assert secs == [secs[0]] + rest;
      SectionOnOne(st, secs[0], s);
      HeadAndRest(secs, s.sid);
      assert OnlyAs(rest, s);
      hide OnlyAs, Here, Inserts, Drops;
      Tracked(After(st, secs[0]), rest, s);
    }
  }

  lemma HeadAndRest(secs: seq<Section>, sid: string)
    requires secs != []
    ensures Inserts(secs, sid) <==> (secs[0].Insert? && secs[0].s.sid == sid) || Inserts(secs[1..], sid)
    ensures Drops(secs, sid) <==> secs[0] == DropOne(sid) || Drops(secs[1..], sid)
  {
    assert secs == [secs[0]] + secs[1..];
    if Inserts(secs[1..], sid) {
      var i :| 0 <= i < |secs[1..]| && secs[1..][i].Insert? && secs[1..][i].s.sid == sid;
      assert secs[i + 1] == secs[1..][i];
    }
    if Inserts(secs, sid) && !(secs[0].Insert? && secs[0].s.sid == sid) {
      var i :| 0 <= i < |secs| && secs[i].Insert? && secs[i].s.sid == sid;
      assert secs[1..][i - 1] == secs[i];
    }
  }

  lemma {:induction false} InSequence(st: State, front: seq<Section>, back: seq<Section>)
    ensures AfterAll(st, front + back) == AfterAll(AfterAll(st, front), back)
    ensures AllPossible(st, front + back) <==> AllPossible(st, front) && AllPossible(AfterAll(st, front), back)
    decreases |front|
  {
    hide Possible, After;
    if front == [] {
      assert front + back == back;
    } else {
      assert (front + back)[1..] == front[1..] + back;
      InSequence(After(st, front[0]), front[1..], back);
    }
  }

  /** A guest outlives the revocation of its invite exactly if it is inserted after the revocation has
      collected the sessions to drop. Nobody else drops it, and the revocation drops what it collected. */
  lemma LateGuestIff(st: State, s: Session, pre: seq<Section>, post: seq<Section>)
    requires Sound(st) && s.sid !in st.hub.sessions
    requires AllPossible(st, pre + ([Mark(s.invite)] + post))
    requires OnlyAs(pre, s) && OnlyAs(post, s) && (Inserts(pre, s.sid) <==> !Inserts(post, s.sid))
    requires s.invite in AfterAll(st, pre).hub.invites
    requires !Drops(pre, s.sid)
    requires Drops(post, s.sid) <==> s.sid in SessionsOf(AfterAll(st, pre).hub, s.invite)
    ensures s.sid in AfterAll(st, pre + ([Mark(s.invite)] + post)).hub.sessions <==> Inserts(post, s.sid)
  {
    var mid := AfterAll(st, pre);
    MarkFirst(mid, s.invite, post);
    hide *;
    InSequence(st, pre, [Mark(s.invite)] + post);
    RunKeepsSound(st, pre);
    Tracked(st, pre, s);
    SessionIsFiled(mid, s);
    SectionOnOne(mid, Mark(s.invite), s);
    Tracked(After(mid, Mark(s.invite)), post, s);
  }

  lemma MarkFirst(st: State, id: string, post: seq<Section>)
    ensures AfterAll(st, [Mark(id)] + post) == AfterAll(After(st, Mark(id)), post)
    ensures AllPossible(st, [Mark(id)] + post) <==> AllPossible(After(st, Mark(id)), post)
    ensures Possible(st, Mark(id))
  {
    assert ([Mark(id)] + post)[1..] == post;
    hide After;
  }

  lemma SessionIsFiled(st: State, s: Session)
    requires Sound(st) && (s.sid in st.hub.sessions ==> Here(st, s))
    ensures s.sid in st.hub.sessions <==> s.sid in SessionsOf(st.hub, s.invite)
  {
    TabKeys(st.hub, s.invite);
    hide IndexesAgree, SessionsOf;
  }

  // ---- the limit of four

  /** The sessions of an invite that no hello has undertaken to drop. When no eviction is outstanding these
      are all its sessions. */
  function Staying(st: State, id: string): set<string>
  {
    SessionsOf(st.hub, id).Keys - st.evicting
  }

  ghost predicate AlwaysWithinLimit(st: State, secs: seq<Section>, id: string)
    decreases |secs|
  {
    |Staying(st, id)| <= MAX_SESSIONS && (secs != [] ==> AlwaysWithinLimit(After(st, secs[0]), secs[1..], id))
  }

  /** A hello that inserts finds room, or replaces a session that no other hello is about to replace. */
  predicate ReplacesAnother(st: State, sec: Section, id: string)
  {
    sec.Insert? && sec.s.invite == id ==>
      |Staying(st, id)| < MAX_SESSIONS || (sec.evict.Some? && sec.evict.value !in st.evicting)
  }

  predicate AllReplaceOthers(st: State, secs: seq<Section>, id: string)
    decreases |secs|
  {
    secs == [] || (ReplacesAnother(st, secs[0], id) && AllReplaceOthers(After(st, secs[0]), secs[1..], id))
  }

  lemma OwnInsert(st: State, sec: Section)
    requires Sound(st) && Possible(st, sec) && sec.Insert?
    ensures var id, e := sec.s.invite, Victims(sec.evict);
            && Staying(After(st, sec), id) == Staying(st, id) + {sec.s.sid} - e
            && sec.s.sid !in Staying(st, id) && sec.s.sid !in e
            && (sec.evict.Some? && sec.evict.value !in st.evicting ==> sec.evict.value in Staying(st, id))
            && (sec.evict.Some? && sec.evict.value in st.evicting ==> e !! Staying(st, id))
  {
    var s := sec.s;
    GrownParts(st.hub, s);
    TabKeys(st.hub, s.invite);
    hide IndexesAgree, NoEmpties, OrderListsInvites, SessionsOf, Roomy, Grown;
    assert SessionsOf(After(st, sec).hub, s.invite).Keys == SessionsOf(st.hub, s.invite).Keys + {s.sid};
  }

  lemma OneMoreLess(t: set<string>, sid: string, e: set<string>)
    requires sid !in t && sid !in e
    ensures |t + {sid} - e| == |t - e| + 1
  {
    assert t + {sid} - e == (t - e) + {sid};
  }

  lemma OneLess(t: set<string>, x: string)
    requires x in t
    ensures |t - {x}| == |t| - 1
  {
    assert t == (t - {x}) + {x};
  }

  lemma NoneLess(t: set<string>, e: set<string>)
    requires e !! t
    ensures t - e == t
  {
  }

  lemma OwnInsertWithinIff(st: State, sec: Section)
    requires Sound(st) && Possible(st, sec) && sec.Insert? && |Staying(st, sec.s.invite)| <= MAX_SESSIONS
    ensures |Staying(After(st, sec), sec.s.invite)| <= MAX_SESSIONS <==> ReplacesAnother(st, sec, sec.s.invite)
  {
    OwnInsert(st, sec);
    var t, e := Staying(st, sec.s.invite), Victims(sec.evict);
    OneMoreLess(t, sec.s.sid, e);
    if sec.evict.Some? && sec.evict.value !in st.evicting {
      OneLess(t, sec.evict.value);
    } else {
      NoneLess(t, e);
    }
    hide Sound, Possible, Staying, After;
  }

  /** Nothing but a hello of the invite itself adds to what stays of it. */
  lemma OthersWithin(st: State, sec: Section, id: string)
    requires Sound(st) && Possible(st, sec) && !(sec.Insert? && sec.s.invite == id)
    ensures Staying(After(st, sec), id) <= Staying(st, id)
  {
    if sec.Insert? {
      GrownParts(st.hub, sec.s);
      hide SoundTables, Picked, Grown;
    } else if sec.DropOne? {
      WithoutSessionsOf(st.hub, {sec.sid}, id);
      hide SoundTables, SessionsOf, Without;
    } else {
      TablesStay(st, sec);
      SameTables(st.hub, After(st, sec).hub);
      hide SoundTables, SessionsOf, After;
    }
  }

  lemma SectionWithinIff(st: State, sec: Section, id: string)
    requires Sound(st) && Possible(st, sec) && |Staying(st, id)| <= MAX_SESSIONS
    ensures |Staying(After(st, sec), id)| <= MAX_SESSIONS <==> ReplacesAnother(st, sec, id)
  {
    if sec.Insert? && sec.s.invite == id {
      OwnInsertWithinIff(st, sec);
    } else {
      OthersWithin(st, sec, id);
      SubsetSize(Staying(After(st, sec), id), Staying(st, id));
    }
    hide *;
    IgnoresOthers(st, sec, id);
  }

  lemma IgnoresOthers(st: State, sec: Section, id: string)
    ensures !(sec.Insert? && sec.s.invite == id) ==> ReplacesAnother(st, sec, id)
  {
  }

  lemma {:induction false} LimitFrom(st: State, secs: seq<Section>, id: string)
    requires Sound(st) && AllPossible(st, secs) && |Staying(st, id)| <= MAX_SESSIONS
    ensures AlwaysWithinLimit(st, secs, id) <==> AllReplaceOthers(st, secs, id)
    decreases |secs|
  {
    hide Sound, Possible, After, ReplacesAnother, Staying;
    if secs != [] {
      SectionWithinIff(st, secs[0], id);
      SectionKeepsSound(st, secs[0]);
      if ReplacesAnother(st, secs[0], id) { LimitFrom(After(st, secs[0]), secs[1..], id); }
    }
  }

  /** However many hellos are in flight and whatever their clocks: the limit always holds exactly if no hello
      that finds four staying sessions replaces one that another hello is about to replace, or none. */
  lemma InterleavedLimitIff(h: Hub, secs: seq<Section>, id: string)
    requires Loaded(h) && AllPossible(Start(h), secs)
    ensures AlwaysWithinLimit(Start(h), secs, id) <==> AllReplaceOthers(Start(h), secs, id)
  {
    StartIsSound(h);
    NobodyStays(h, id);
    hide *;
    LimitFrom(Start(h), secs, id);
  }

  lemma NobodyStays(h: Hub, id: string)
    requires Loaded(h)
    ensures SessionsOf(h, id) == map[] && |Staying(Start(h), id)| <= MAX_SESSIONS
  {
  }

  // ---- the limit, when sessions are inserted in the order of their creation

  /** A hello inserts a session that is younger than those it finds, before the clock reading that the
      eviction goes by. */
  predicate InsertsYoungest(st: State, sec: Section)
  {
    sec.Insert? ==>
      var m := SessionsOf(st.hub, sec.s.invite);
      sec.s.created <= sec.now && forall o :: o in m ==> m[o].created < sec.s.created
  }

  predicate AllInsertYoungest(st: State, secs: seq<Section>)
    decreases |secs|
  {
    secs == [] || (InsertsYoungest(st, secs[0]) && AllInsertYoungest(After(st, secs[0]), secs[1..]))
  }

  /** A hello that inserts finds at most four sessions of its invite in the table. */
  predicate FindsFour(st: State, sec: Section, id: string)
  {
    sec.Insert? && sec.s.invite == id ==> |SessionsOf(st.hub, id)| <= MAX_SESSIONS
  }

  predicate AllFindFour(st: State, secs: seq<Section>, id: string)
    decreases |secs|
  {
    secs == [] || (FindsFour(st, secs[0], id) && AllFindFour(After(st, secs[0]), secs[1..], id))
  }

  ghost predicate DifferentAges(m: Tab)
  {
    forall o, p :: o in m && p in m && o != p ==> m[o].created != m[p].created
  }

  ghost predicate OldestGo(m: Tab, evicting: set<string>)
  {
    forall e :: e in m && e in evicting ==> Oldest(m, e)
  }

  /** Sessions differ in age, and only the oldest is being replaced. */
  ghost predicate Tidy(st: State, id: string)
  {
    DifferentAges(SessionsOf(st.hub, id)) && OldestGo(SessionsOf(st.hub, id), st.evicting)
  }

  lemma YoungestKeepsTidy(m: Tab, evicting: set<string>, s: Session, evict: Option<string>)
    requires DifferentAges(m) && OldestGo(m, evicting) && s.sid !in m && s.sid !in evicting
    requires forall o :: o in m ==> m[o].created < s.created
    requires evict.Some? ==> Oldest(m, evict.value)
    ensures DifferentAges(m[s.sid := s]) && OldestGo(m[s.sid := s], evicting + Victims(evict))
  {
  }

  lemma FewerKeepTidy(m: Tab, evicting: set<string>, gone: set<string>)
    requires DifferentAges(m) && OldestGo(m, evicting)
    ensures DifferentAges(m - gone) && OldestGo(m - gone, evicting - gone)
  {
  }

  /** Victims of another invite are not sessions of this one. */
  lemma ForeignVictims(m: Tab, evicting: set<string>, e: set<string>)
    requires OldestGo(m, evicting) && forall x :: x in e ==> x !in m
    ensures OldestGo(m, evicting + e)
  {
  }

  lemma InsertKeepsTidy(st: State, sec: Section, id: string)
    requires Sound(st) && Possible(st, sec) && sec.Insert? && InsertsYoungest(st, sec) && Tidy(st, id)
    ensures Tidy(After(st, sec), id)
  {
    var s, m := sec.s, SessionsOf(st.hub, id);
    GrownParts(st.hub, s);
    TabKeys(st.hub, id);
    TabKeys(st.hub, s.invite);
    hide IndexesAgree, NoEmpties, OrderListsInvites, SessionsOf, Roomy, Grown, DifferentAges, OldestGo, Oldest;
    if s.invite == id {
      YoungestKeepsTidy(m, st.evicting, s, sec.evict);
    } else {
      OldestIsIn(SessionsOf(st.hub, s.invite), sec.evict);
      ForeignVictims(m, st.evicting, Victims(sec.evict));
    }
  }

  lemma OldestIsIn(m: Tab, evict: Option<string>)
    ensures evict.Some? && Oldest(m, evict.value) ==> evict.value in m
  {
  }

  lemma SectionKeepsTidy(st: State, sec: Section, id: string)
    requires Sound(st) && Possible(st, sec) && InsertsYoungest(st, sec) && Tidy(st, id)
    ensures Tidy(After(st, sec), id)
  {
    if sec.Insert? {
      InsertKeepsTidy(st, sec, id);
      hide *;
    } else if sec.DropOne? {
      WithoutSessionsOf(st.hub, {sec.sid}, id);
      FewerKeepTidy(SessionsOf(st.hub, id), st.evicting, {sec.sid});
      hide Sound, SessionsOf, Without, DifferentAges, OldestGo;
    } else {
      TablesStay(st, sec);
      SameTables(st.hub, After(st, sec).hub);
      hide Sound, SessionsOf, After, DifferentAges, OldestGo;
    }
  }

  /** At most one session is being replaced. */
  lemma OneGoes(m: Tab, evicting: set<string>)
    requires DifferentAges(m) && OldestGo(m, evicting)
    ensures |m| == |m.Keys - evicting| + |m.Keys * evicting| && |m.Keys * evicting| <= 1
    ensures forall e, f :: e in m && e in evicting && Oldest(m, f) ==> e == f
  {
    SplitSize(m.Keys, evicting);
    assert |m| == |m.Keys|;
    var both := m.Keys * evicting;
    forall e, f | e in m && e in evicting && Oldest(m, f) ensures e == f { assert Oldest(m, e); }
    if both != {} {
      var e :| e in both;
      forall f | f in both ensures f == e { assert Oldest(m, f) && e in m && e in evicting; }
      assert both == {e};
    }
  }

  lemma SplitSize(a: set<string>, b: set<string>)
    ensures |a| == |a - b| + |a * b|
  {
    assert a == (a - b) + (a * b);
  }

  lemma PickedAmong(m: Tab, evicting: set<string>, now: int, evict: Option<string>)
    requires DifferentAges(m) && OldestGo(m, evicting) && Picked(m, now, evict)
    requires forall o :: o in m ==> m[o].created < now
    requires |m.Keys - evicting| <= MAX_SESSIONS
    ensures |m.Keys - evicting| < MAX_SESSIONS || (evict.Some? && evict.value !in evicting) <==> |m| <= MAX_SESSIONS
  {
    OneGoes(m, evicting);
    hide DifferentAges, OldestGo, Oldest;
    if |m| > MAX_SESSIONS {
      var e :| e in m.Keys * evicting;
      assert e in m && e in evicting;
      assert evict.Some? ==> evict.value == e;
    } else if |m.Keys - evicting| == MAX_SESSIONS {
      NoneShared(m.Keys, evicting);
      assert evict.Some? ==> evict.value in m by { OldestIsIn(m, evict); }
      assert !Roomy(m, now) by { FullIsNotRoomy(m, now); }
    }
  }

  lemma FullIsNotRoomy(m: Tab, now: int)
    requires |m| >= MAX_SESSIONS && forall o :: o in m ==> m[o].created < now
    ensures !Roomy(m, now)
  {
    var o :| o in m;
  }

  lemma FindsFourIff(st: State, sec: Section, id: string)
    requires Sound(st) && Possible(st, sec) && InsertsYoungest(st, sec) && Tidy(st, id)
    requires |Staying(st, id)| <= MAX_SESSIONS
    ensures ReplacesAnother(st, sec, id) <==> FindsFour(st, sec, id)
  {
    hide SoundTables, SessionsOf, DifferentAges, OldestGo, Picked;
    if sec.Insert? && sec.s.invite == id {
      PickedAmong(SessionsOf(st.hub, id), st.evicting, sec.now, sec.evict);
    }
  }

  lemma NoneShared(a: set<string>, b: set<string>)
    requires |a * b| == 0
    ensures a !! b
  {
    assert a * b == {};
    assert forall x :: x in a && x in b ==> x in a * b;
  }

  lemma {:induction false} OrderlyLimitFrom(st: State, secs: seq<Section>, id: string)
    requires Sound(st) && AllPossible(st, secs) && AllInsertYoungest(st, secs) && Tidy(st, id)
    requires |Staying(st, id)| <= MAX_SESSIONS
    ensures AlwaysWithinLimit(st, secs, id) <==> AllFindFour(st, secs, id)
    decreases |secs|
  {
    hide Sound, Possible, After, ReplacesAnother, FindsFour, InsertsYoungest, Tidy, Staying;
    if secs != [] {
      SectionWithinIff(st, secs[0], id);
      FindsFourIff(st, secs[0], id);
      SectionKeepsSound(st, secs[0]);
      SectionKeepsTidy(st, secs[0], id);
      if FindsFour(st, secs[0], id) { OrderlyLimitFrom(After(st, secs[0]), secs[1..], id); }
    }
  }

  /** If sessions are inserted in the order of their creation, the limit always holds exactly if no hello
      finds more than four sessions of its invite in the table: a fifth is one that an earlier hello has
      replaced and not dropped yet. */
  lemma OrderlyLimitIff(h: Hub, secs: seq<Section>, id: string)
    requires Loaded(h) && AllPossible(Start(h), secs) && AllInsertYoungest(Start(h), secs)
    ensures AlwaysWithinLimit(Start(h), secs, id) <==> AllFindFour(Start(h), secs, id)
  {
    StartIsSound(h);
    NobodyStays(h, id);
    assert Tidy(Start(h), id);
    hide *;
    OrderlyLimitFrom(Start(h), secs, id);
  }

  // ---- two hellos of a full invite

  /** Two hellos in one order or the other: the first drops its victim before the second inserts, or after. */
  function TwoHellos(first: Section, e: string, second: Section, f: string, dropFirst: bool): seq<Section>
  {
    if dropFirst then [first] + ([DropOne(e)] + ([second] + ([DropOne(f)] + [])))
    else [first] + ([second] + ([DropOne(e)] + ([DropOne(f)] + [])))
  }

  lemma Then(st: State, sec: Section, rest: seq<Section>)
    ensures AfterAll(st, [sec] + rest) == AfterAll(After(st, sec), rest)
    ensures AllPossible(st, [sec] + rest) <==> Possible(st, sec) && AllPossible(After(st, sec), rest)
    ensures AfterAll(st, []) == st
  {
    assert ([sec] + rest)[1..] == rest;
    hide After, Possible;
  }

  lemma SizeAfterInsert(st: State, sec: Section)
    requires Sound(st) && Possible(st, sec) && sec.Insert?
    ensures var m := SessionsOf(st.hub, sec.s.invite);
            && SessionsOf(After(st, sec).hub, sec.s.invite) == m[sec.s.sid := sec.s]
            && |SessionsOf(After(st, sec).hub, sec.s.invite)| == |m| + 1
  {
    GrownKeepsIndexes(st.hub, sec.s);
    GrownParts(st.hub, sec.s);
    hide SoundTables, SessionsOf, Roomy, Grown;
  }

  lemma SizeAfterDrop(st: State, sid: string, id: string)
    ensures var m := SessionsOf(st.hub, id);
            && SessionsOf(After(st, DropOne(sid)).hub, id) == m - {sid}
            && |m - {sid}| == if sid in m then |m| - 1 else |m|
  {
    var m := SessionsOf(st.hub, id);
    WithoutSessionsOf(st.hub, {sid}, id);
    hide SessionsOf, Without;
    assert (m - {sid}).Keys == m.Keys - {sid};
    assert |m - {sid}| == |(m - {sid}).Keys| && |m| == |m.Keys|;
    if sid in m { OneLess(m.Keys, sid); } else { assert m.Keys - {sid} == m.Keys; }
  }

  lemma PickedIsIn(m: Tab, now: int, e: string)
    requires Picked(m, now, Some(e))
    ensures e in m && Oldest(m, e)
  {
  }

  /** The oldest of a table is still the oldest beside a younger session. */
  lemma SamePick(m: Tab, s: Session, e: string, f: string)
    requires DifferentAges(m) && Oldest(m, e) && s.sid !in m && forall o :: o in m ==> m[o].created < s.created
    requires Oldest(m[s.sid := s], f)
    ensures f == e
  {
    var n := m[s.sid := s];
    assert e in n && n[e] == m[e];
    assert n[f].created <= n[e].created;
    assert f in m && m[e].created <= m[f].created;
  }

  /** Of two hellos of an invite with four sessions of different ages, each younger than those it finds, four
      sessions remain exactly if the first has dropped its victim before the second inserts. */
  lemma TwoHellosIff(st: State, s: Session, t: Session, now: int, later: int, e: string, f: string, dropFirst: bool)
    requires Sound(st) && s.invite == t.invite
    requires |SessionsOf(st.hub, s.invite)| == MAX_SESSIONS && DifferentAges(SessionsOf(st.hub, s.invite))
    requires forall o :: o in SessionsOf(st.hub, s.invite) ==> SessionsOf(st.hub, s.invite)[o].created < s.created
    requires AllPossible(st, TwoHellos(Insert(s, now, Some(e)), e, Insert(t, later, Some(f)), f, dropFirst))
    ensures var end := AfterAll(st, TwoHellos(Insert(s, now, Some(e)), e, Insert(t, later, Some(f)), f, dropFirst));
            |SessionsOf(end.hub, s.invite)| == (if dropFirst then MAX_SESSIONS else MAX_SESSIONS + 1)
  {
    var id, first, second := s.invite, Insert(s, now, Some(e)), Insert(t, later, Some(f));
    var one := After(st, first);
    TwoHellosUnfold(st, first, e, second, f, dropFirst);
    InsertParts(st, s, now, e);
    hide *;
    SizeAfterInsert(st, first);
    SectionKeepsSound(st, first);
    PickedIsIn(SessionsOf(st.hub, id), now, e);
    if dropFirst {
      var two := After(one, DropOne(e));
      SizeAfterDrop(one, e, id);
      SectionKeepsSound(one, DropOne(e));
      InsertParts(two, t, later, f);
      SizeAfterInsert(two, second);
      PickedIsIn(SessionsOf(two.hub, id), later, f);
      SizeAfterDrop(After(two, second), f, id);
    } else {
      InsertParts(one, t, later, f);
      SizeAfterInsert(one, second);
      PickedIsIn(SessionsOf(one.hub, id), later, f);
      NotHere(st, s);
      SamePick(SessionsOf(st.hub, id), s, e, f);
      SizeAfterDrop(After(one, second), e, id);
      SizeAfterDrop(After(After(one, second), DropOne(e)), e, id);
    }
  }

  lemma InsertParts(st: State, s: Session, now: int, e: string)
    requires Possible(st, Insert(s, now, Some(e)))
    ensures s.sid !in st.hub.sessions && Picked(SessionsOf(st.hub, s.invite), now, Some(e))
  {
  }

  lemma NotHere(st: State, s: Session)
    requires Sound(st) && s.sid !in st.hub.sessions
    ensures s.sid !in SessionsOf(st.hub, s.invite)
  {
    TabKeys(st.hub, s.invite);
    hide IndexesAgree, SessionsOf;
  }

  lemma TwoHellosUnfold(st: State, first: Section, e: string, second: Section, f: string, dropFirst: bool)
    requires AllPossible(st, TwoHellos(first, e, second, f, dropFirst))
    ensures Possible(st, first)
    ensures var one := After(st, first);
            if dropFirst then
              var two := After(one, DropOne(e));
              && Possible(one, DropOne(e)) && Possible(two, second)
              && AfterAll(st, TwoHellos(first, e, second, f, dropFirst)) == After(After(two, second), DropOne(f))
            else
              && Possible(one, second)
              && AfterAll(st, TwoHellos(first, e, second, f, dropFirst))
                 == After(After(After(one, second), DropOne(e)), DropOne(f))
  {
    hide Possible, After, AfterAll, AllPossible;
    var one := After(st, first);
    if dropFirst {
      var two := After(one, DropOne(e));
      Then(st, first, [DropOne(e)] + ([second] + ([DropOne(f)] + [])));
      Then(one, DropOne(e), [second] + ([DropOne(f)] + []));
      Then(two, second, [DropOne(f)] + []);
      Then(After(two, second), DropOne(f), []);
      Then(After(After(two, second), DropOne(f)), DropOne(f), []);
    } else {
      var two := After(one, second);
      Then(st, first, [second] + ([DropOne(e)] + ([DropOne(f)] + [])));
      Then(one, second, [DropOne(e)] + ([DropOne(f)] + []));
      Then(two, DropOne(e), [DropOne(f)] + []);
      Then(After(two, DropOne(e)), DropOne(f), []);
      Then(After(After(two, DropOne(e)), DropOne(f)), DropOne(f), []);
    }
  }

  // ---- runs that break the two properties

  /** A guest whose invite was checked before it was revoked and who is inserted afterwards stays, with
      nobody left who would drop it. */
  lemma LateGuestStays(id: string, inv: Invite)
    ensures AllPossible(Alone(id, inv), [Mark(id)] + ([HelloOf(id, 0)] + []))
    ensures var end := AfterAll(Alone(id, inv), [Mark(id)] + ([HelloOf(id, 0)] + []));
            && Guest(id, 0, 0).sid in end.hub.sessions && end.hub.sessions[Guest(id, 0, 0).sid].invite == id
            && !Live(end.hub, id) && end.leaving == {} && end.evicting == {}
  {
    var st := Alone(id, inv);
    var mid := After(st, Mark(id));
    assert SessionsOf(st.hub, id) == map[] && mid.leaving == {};
    assert SessionsOf(mid.hub, id) == map[];
    Then(st, Mark(id), [HelloOf(id, 0)] + []);
    Then(mid, HelloOf(id, 0), []);
    Then(After(mid, HelloOf(id, 0)), HelloOf(id, 0), []);
    NothingYet(After(mid, HelloOf(id, 0)));
    hide AfterAll, AllPossible;
  }

  /** Hellos of n guests, one second after the other, none of which gets to drop its victim. */
  function Line(id: string, n: nat): seq<Section>
  {
    if n == 0 then [] else Line(id, n - 1) + [HelloOf(id, n - 1)]
  }

  function HelloOf(id: string, i: nat): Section
  {
    Insert(Guest(id, i, i), i, if i < MAX_SESSIONS then None else Some(Guest(id, 0, 0).sid))
  }

  function Alone(id: string, inv: Invite): State { Start(Hub(map[id := inv], [id], {}, map[], map[])) }

  /** Guest i was created at second i. */
  ghost predicate Aged(sessions: Tab, n: nat)
  {
    forall sid :: sid in sessions ==> |sid| < n && sessions[sid].created == |sid|
  }

  lemma OneMoreAged(sessions: Tab, s: Session, n: nat)
    requires Aged(sessions, n) && |s.sid| == n && s.created == n
    ensures Aged(sessions[s.sid := s], n + 1) && s.sid !in sessions
  {
  }

  /** The table of one invite after that. */
  ghost predicate Lined(st: State, id: string, n: nat)
  {
    && Sound(st)
    && Aged(st.hub.sessions, n)
    && (n > 0 ==> Guest(id, 0, 0).sid in SessionsOf(st.hub, id))
    && |SessionsOf(st.hub, id)| == n
    && st.evicting == if n <= MAX_SESSIONS then {} else {Guest(id, 0, 0).sid}
  }

  lemma LinedHello(st: State, id: string, n: nat)
    requires Lined(st, id, n)
    ensures Possible(st, HelloOf(id, n)) && InsertsYoungest(st, HelloOf(id, n))
  {
    var m := SessionsOf(st.hub, id);
    TabIsOfInvite(st.hub, id);
    GuestIs(id, n, n);
    GuestIs(id, 0, 0);
    hide IndexesAgree, NoEmpties, OrderListsInvites, SessionsOf;
    if n >= MAX_SESSIONS {
      var first := Guest(id, 0, 0).sid;
      assert first in m && m[first].created == 0;
      assert Oldest(m, first);
    }
  }

  lemma LinedNext(st: State, id: string, n: nat)
    requires Lined(st, id, n)
    ensures Lined(After(st, HelloOf(id, n)), id, n + 1)
  {
    var s := Guest(id, n, n);
    LinedHello(st, id, n);
    HelloEffect(st, id, n);
    hide Sound, SessionsOf, Guest, Possible, After, HelloOf, Aged;
    SectionKeepsSound(st, HelloOf(id, n));
    SizeAfterInsert(st, HelloOf(id, n));
    GuestIs(id, n, n);
    OneMoreAged(st.hub.sessions, s, n);
  }

  lemma HelloEffect(st: State, id: string, n: nat)
    ensures HelloOf(id, n).Insert? && HelloOf(id, n).s == Guest(id, n, n) && Guest(id, n, n).invite == id
    ensures var u := After(st, HelloOf(id, n));
            && u.hub.sessions == st.hub.sessions[Guest(id, n, n).sid := Guest(id, n, n)]
            && u.evicting == if n < MAX_SESSIONS then st.evicting else st.evicting + {Guest(id, 0, 0).sid}
  {
    GrownTable(st.hub, Guest(id, n, n));
    hide SessionsOf, Grown;
  }

  lemma AloneIsLined(id: string, inv: Invite)
    ensures Lined(Alone(id, inv), id, 0) && Loaded(Alone(id, inv).hub)
  {
  }

  lemma OneMoreSection(st: State, front: seq<Section>, sec: Section)
    ensures AfterAll(st, front + [sec]) == After(AfterAll(st, front), sec)
    ensures AllPossible(st, front + [sec]) <==> AllPossible(st, front) && Possible(AfterAll(st, front), sec)
  {
    var mid := AfterAll(st, front);
    InSequence(st, front, [sec]);
    hide After, Possible;
    assert [sec][1..] == [];
    assert AfterAll(mid, [sec]) == AfterAll(After(mid, sec), []);
    assert AllPossible(mid, [sec]) <==> Possible(mid, sec);
  }

  lemma LineUnfolds(id: string, n: nat)
    ensures Line(id, 0) == [] && Line(id, n + 1) == Line(id, n) + [HelloOf(id, n)]
  {
    hide HelloOf;
  }

  lemma NothingYet(st: State)
    ensures AllPossible(st, []) && AfterAll(st, []) == st
  {
  }

  lemma {:induction false} LineIsLined(id: string, inv: Invite, n: nat)
    ensures AllPossible(Alone(id, inv), Line(id, n)) && Lined(AfterAll(Alone(id, inv), Line(id, n)), id, n)
    decreases n
  {
    hide *;
    var st := Alone(id, inv);
    if n == 0 {
      AloneIsLined(id, inv);
      LineUnfolds(id, 0);
      NothingYet(st);
    } else {
      LineIsLined(id, inv, n - 1);
      LineUnfolds(id, n - 1);
      var mid := AfterAll(st, Line(id, n - 1));
      LinedHello(mid, id, n - 1);
      LinedNext(mid, id, n - 1);
      OneMoreSection(st, Line(id, n - 1), HelloOf(id, n - 1));
    }
  }

  /** From five on, hellos in flight at once all replace the first guest, so n of them leave n - 1 sessions
      when every victim is dropped: six leave five. */
  lemma LineLeavesOneLess(id: string, inv: Invite, n: nat)
    requires n > MAX_SESSIONS
    ensures AllPossible(Alone(id, inv), Line(id, n))
    ensures var end := After(AfterAll(Alone(id, inv), Line(id, n)), DropOne(Guest(id, 0, 0).sid));
            |SessionsOf(end.hub, id)| == n - 1 && end.evicting == {}
  {
    LineIsLined(id, inv, n);
    LinedDrop(AfterAll(Alone(id, inv), Line(id, n)), id, n);
    hide *;
  }

  lemma LinedDrop(st: State, id: string, n: nat)
    requires Lined(st, id, n) && n > MAX_SESSIONS
    ensures var end := After(st, DropOne(Guest(id, 0, 0).sid)); |SessionsOf(end.hub, id)| == n - 1 && end.evicting == {}
  {
    SizeAfterDrop(st, Guest(id, 0, 0).sid, id);
    hide Sound, SessionsOf, Guest, Aged, Without;
  }
}
