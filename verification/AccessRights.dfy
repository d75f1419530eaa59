/** Access rights of a runtime context, and the bookkeeping of temporary grants. */
module AccessRights {
  import opened Basics

  datatype Right = READ | WRITE | ADD

  /** A value of the bit-flag type `AccessRights`: the flags that are set. */
  type Rights = set<Right>

  datatype Addr = Addr(bytes: Bytes)

  datatype URef = URef(addr: Addr, rights: Rights)

  datatype GrantedAccess =
    | PreExisting
    | Granted(addr: Addr, newlyGranted: Rights)

  type RightsMap = map<Addr, Rights>

  function RightsAt(m: RightsMap, a: Addr): Rights {
    if a in m then m[a] else {}
  }

  predicate HasAccess(m: RightsMap, u: URef) {
    u.addr in m && u.rights <= m[u.addr]
  }

  /** One more reference known: its rights are added to those at its address. */
  function Extended(m: RightsMap, u: URef): RightsMap {
    m[u.addr := RightsAt(m, u.addr) + u.rights]
  }

  function ExtendedAll(m: RightsMap, us: seq<URef>): RightsMap
    decreases |us|
  {
    if us == [] then m else ExtendedAll(Extended(m, us[0]), us[1..])
  }

  /** The answer of `grant_access`. */
  function GrantOf(m: RightsMap, u: URef): GrantedAccess {
    if u.addr in m && u.rights <= m[u.addr] then PreExisting
    else Granted(u.addr, u.rights - RightsAt(m, u.addr))
  }

  function Removed(m: RightsMap, a: Addr, r: Rights): RightsMap {
    if a in m then m[a := m[a] - r] else m
  }

  class ContextAccessRights {
    var accessRights: RightsMap

    constructor (urefs: seq<URef>)
      ensures accessRights == ExtendedAll(map[], urefs)
    {
      accessRights := map[];
      new;
      Extend(urefs);
    }

    method Extend(urefs: seq<URef>)
      modifies this
      ensures accessRights == ExtendedAll(old(accessRights), urefs)
    {
      for i := 0 to |urefs|
        invariant ExtendedAll(accessRights, urefs[i..]) == ExtendedAll(old(accessRights), urefs)
      {
        var u := urefs[i];
        assert urefs[i..][1..] == urefs[i + 1..];
        if u.addr in accessRights {
          accessRights := accessRights[u.addr := accessRights[u.addr] + u.rights];
        } else {
          assert {} + u.rights == u.rights;
          accessRights := accessRights[u.addr := u.rights];
        }
      }
    }

    method HasAccessRightsToURef(u: URef) returns (has: bool)
      ensures has == HasAccess(accessRights, u)
    {
      if u.addr in accessRights {
        return u.rights <= accessRights[u.addr];
      }
      return false;
    }

    method GrantAccess(u: URef) returns (granted: GrantedAccess)
      modifies this
      ensures granted == GrantOf(old(accessRights), u)
      ensures accessRights == Extended(old(accessRights), u)
    {
      if u.addr in accessRights {
        var newlyGranted := u.rights - accessRights[u.addr];
        accessRights := accessRights[u.addr := accessRights[u.addr] + u.rights];
        return if newlyGranted == {} then PreExisting else Granted(u.addr, newlyGranted);
      }
      assert {} + u.rights == u.rights && u.rights - {} == u.rights;
      accessRights := accessRights[u.addr := u.rights];
      return Granted(u.addr, u.rights);
    }

    /** None of `r` is left at `a`; everything else stays, and no address is forgotten. */
    method RemoveAccess(a: Addr, r: Rights)
      modifies this
      ensures accessRights == Removed(old(accessRights), a, r)
      ensures accessRights.Keys == old(accessRights).Keys
      ensures RightsAt(accessRights, a) == RightsAt(old(accessRights), a) - r
      ensures forall b | b != a :: RightsAt(accessRights, b) == RightsAt(old(accessRights), b)
    {
      if a in accessRights {
        accessRights := accessRights[a := accessRights[a] - r];
      }
      assert accessRights.Keys == old(accessRights).Keys;
    }
  }

  // ----- Extending -------------------------------------------------------------------------------

  /** All rights that `us` lists for one address. */
  function ListedAt(us: seq<URef>, a: Addr): Rights {
    if us == [] then {} else (if us[0].addr == a then us[0].rights else {}) + ListedAt(us[1..], a)
  }

  /** Duplicates merge by union, in any order. */
  lemma {:induction false} ExtendedAllAt(m: RightsMap, us: seq<URef>, a: Addr)
    ensures RightsAt(ExtendedAll(m, us), a) == RightsAt(m, a) + ListedAt(us, a)
    ensures a in ExtendedAll(m, us) <==> a in m || exists i | 0 <= i < |us| :: us[i].addr == a
    decreases |us|
  {
    if us != [] {
      ExtendedAllAt(Extended(m, us[0]), us[1..], a);
      if i: int :| 0 <= i < |us| && us[i].addr == a {
        assert i > 0 ==> us[1..][i - 1].addr == a;
      }
    }
  }

  /** A grant reports pre-existing access exactly if it was there, and otherwise exactly what was missing. */
  lemma GrantExactly(m: RightsMap, u: URef)
    ensures GrantOf(m, u) == PreExisting <==> HasAccess(m, u)
    ensures HasAccess(Extended(m, u), u)
    ensures GrantOf(m, u).Granted? ==>
              && GrantOf(m, u).addr == u.addr
              && forall r :: r in GrantOf(m, u).newlyGranted <==> r in u.rights && !HasAccess(m, URef(u.addr, {r}))
  {
  }

  // ----- Grants and releases ---------------------------------------------------------------------

  /** A grant that was reported and not yet taken back. */
  datatype Grant = Grant(addr: Addr, rights: Rights)

  datatype Event =
    | Granting(uref: URef)
    | Releasing(index: nat)   // takes back the outstanding grant with this position
    | Extending(urefs: seq<URef>)

  /** The context and the grants outstanding. */
  datatype Ledger = Ledger(rights: RightsMap, outstanding: seq<Grant>)

  function StepLedger(l: Ledger, e: Event): Ledger {
    match e
    case Granting(u) =>
      var granted := GrantOf(l.rights, u);
      Ledger(Extended(l.rights, u),
             if granted.Granted? then l.outstanding + [Grant(granted.addr, granted.newlyGranted)] else l.outstanding)
    case Releasing(i) =>
      if i >= |l.outstanding| then l
      else
        var g := l.outstanding[i];
        Ledger(Removed(l.rights, g.addr, g.rights), l.outstanding[..i] + l.outstanding[i + 1..])
    case Extending(us) => l.(rights := ExtendedAll(l.rights, us))
  }

  function RunLedger(l: Ledger, es: seq<Event>): Ledger
    decreases |es|
  {
    if es == [] then l else RunLedger(StepLedger(l, es[0]), es[1..])
  }

  function OutstandingAt(gs: seq<Grant>, a: Addr): Rights {
    if gs == [] then {} else (if gs[0].addr == a then gs[0].rights else {}) + OutstandingAt(gs[1..], a)
  }

  /** Grants at one address share no right. */
  predicate Disjoint(gs: seq<Grant>) {
    forall i, j | 0 <= i < j < |gs| :: gs[i].addr == gs[j].addr ==> gs[i].rights !! gs[j].rights
  }

  /** At every address the context holds its base rights plus what is outstanding, without overlap. */
  ghost predicate Balanced(base: RightsMap, l: Ledger) {
    && Disjoint(l.outstanding)
    && (forall a :: RightsAt(l.rights, a) == RightsAt(base, a) + OutstandingAt(l.outstanding, a))
    && (forall a :: RightsAt(base, a) !! OutstandingAt(l.outstanding, a))
    && (forall i | 0 <= i < |l.outstanding| :: l.outstanding[i].addr in l.rights)
    && base.Keys <= l.rights.Keys
  }

  lemma {:induction false} OutstandingSplit(gs: seq<Grant>, i: nat, a: Addr)
    requires i < |gs|
    ensures OutstandingAt(gs, a)
         == OutstandingAt(gs[..i] + gs[i + 1..], a) + if gs[i].addr == a then gs[i].rights else {}
  {
    var without := gs[..i] + gs[i + 1..];
    if i == 0 {
      assert without == gs[1..];
    } else {
      OutstandingSplit(gs[1..], i - 1, a);
      assert gs[1..][..i - 1] + gs[1..][i..] == without[1..];
    }
  }

  lemma {:induction false} OutstandingSnoc(gs: seq<Grant>, g: Grant, a: Addr)
    ensures OutstandingAt(gs + [g], a) == OutstandingAt(gs, a) + if g.addr == a then g.rights else {}
  {
    OutstandingSplit(gs + [g], |gs|, a);
    assert (gs + [g])[..|gs|] + (gs + [g])[|gs| + 1..] == gs;
  }

  lemma {:induction false} MemberIsOutstanding(gs: seq<Grant>, i: nat)
    requires i < |gs|
    ensures gs[i].rights <= OutstandingAt(gs, gs[i].addr)
  {
    if i > 0 {
      MemberIsOutstanding(gs[1..], i - 1);
    }
  }

  lemma {:induction false} DisjointFromRest(gs: seq<Grant>, g: Grant)
    requires forall i | 0 <= i < |gs| :: gs[i].addr == g.addr ==> gs[i].rights !! g.rights
    ensures OutstandingAt(gs, g.addr) !! g.rights
  {
    if gs != [] {
      DisjointFromRest(gs[1..], g);
    }
  }

  lemma GrantingKeepsBalance(base: RightsMap, l: Ledger, u: URef)
    requires Balanced(base, l)
    ensures Balanced(base, StepLedger(l, Granting(u)))
  {
    var after := StepLedger(l, Granting(u));
    if GrantOf(l.rights, u).Granted? {
      var g := Grant(u.addr, u.rights - RightsAt(l.rights, u.addr));
      forall a
        ensures RightsAt(after.rights, a) == RightsAt(base, a) + OutstandingAt(after.outstanding, a)
        ensures RightsAt(base, a) !! OutstandingAt(after.outstanding, a)
      {
        OutstandingSnoc(l.outstanding, g, a);
      }
      forall i | 0 <= i < |l.outstanding| && l.outstanding[i].addr == g.addr
        ensures l.outstanding[i].rights !! g.rights
      {
        MemberIsOutstanding(l.outstanding, i);
      }
    } else {
      assert after.outstanding == l.outstanding;
      forall a ensures RightsAt(after.rights, a) == RightsAt(l.rights, a) {
      }
    }
  }

  lemma RestIsDisjoint(gs: seq<Grant>, i: nat)
    requires i < |gs| && Disjoint(gs)
    ensures var rest := gs[..i] + gs[i + 1..];
            && Disjoint(rest) && OutstandingAt(rest, gs[i].addr) !! gs[i].rights
            && forall j | 0 <= j < |rest| :: rest[j] == gs[if j < i then j else j + 1]
  {
    hide OutstandingAt;
    var rest := gs[..i] + gs[i + 1..];
    assert forall j | 0 <= j < |rest| :: rest[j] == gs[if j < i then j else j + 1];
    DisjointFromRest(rest, gs[i]);
  }

  lemma ReleasedAt(base: RightsMap, l: Ledger, i: nat, a: Addr)
    requires Balanced(base, l) && i < |l.outstanding|
    ensures var after := StepLedger(l, Releasing(i));
            && RightsAt(after.rights, a) == RightsAt(base, a) + OutstandingAt(after.outstanding, a)
            && RightsAt(base, a) !! OutstandingAt(after.outstanding, a)
  {
    hide OutstandingAt, Disjoint;
    RestIsDisjoint(l.outstanding, i);
    OutstandingSplit(l.outstanding, i, a);
  }

  lemma ReleasingKeepsBalance(base: RightsMap, l: Ledger, i: nat)
    requires Balanced(base, l)
    ensures Balanced(base, StepLedger(l, Releasing(i)))
  {
    hide OutstandingAt, Disjoint;
    if i < |l.outstanding| {
      RestIsDisjoint(l.outstanding, i);
      forall a {
        ReleasedAt(base, l, i, a);
      }
    }
  }

  /** The references without the rights that are outstanding at their addresses. */
  function Settled(gs: seq<Grant>, us: seq<URef>): seq<URef> {
    if us == [] then [] else
    [URef(us[0].addr, us[0].rights - OutstandingAt(gs, us[0].addr))] + Settled(gs, us[1..])
  }

  lemma {:induction false} SettledAt(gs: seq<Grant>, us: seq<URef>, a: Addr)
    ensures ListedAt(Settled(gs, us), a) == ListedAt(us, a) - OutstandingAt(gs, a)
    ensures (exists i | 0 <= i < |Settled(gs, us)| :: Settled(gs, us)[i].addr == a)
       <==> (exists i | 0 <= i < |us| :: us[i].addr == a)
  {
    if us != [] {
      var vs := Settled(gs, us);
      SettledAt(gs, us[1..], a);
      assert vs[1..] == Settled(gs, us[1..]);
      AddrInTail(us, a);
      AddrInTail(vs, a);
    }
  }

  lemma AddrInTail(us: seq<URef>, a: Addr)
    requires us != []
    ensures (exists i | 0 <= i < |us| :: us[i].addr == a)
       <==> us[0].addr == a || exists i | 0 <= i < |us[1..]| :: us[1..][i].addr == a
  {
    if i: int :| 0 <= i < |us| && us[i].addr == a {
      assert i > 0 ==> us[1..][i - 1].addr == a;
    }
  }

  /** The base after one event: of what an extension lists, only the rights not outstanding join it. */
  function StepBase(base: RightsMap, l: Ledger, e: Event): RightsMap {
    if e.Extending? then ExtendedAll(base, Settled(l.outstanding, e.urefs)) else base
  }

  function RunBase(base: RightsMap, l: Ledger, es: seq<Event>): RightsMap
    decreases |es|
  {
    if es == [] then base else RunBase(StepBase(base, l, es[0]), StepLedger(l, es[0]), es[1..])
  }

  lemma ExtendingKeepsBalance(base: RightsMap, l: Ledger, us: seq<URef>)
    requires Balanced(base, l)
    ensures Balanced(StepBase(base, l, Extending(us)), StepLedger(l, Extending(us)))
  {
    var base' := StepBase(base, l, Extending(us));
    var after := StepLedger(l, Extending(us));
    forall a
      ensures RightsAt(after.rights, a) == RightsAt(base', a) + OutstandingAt(l.outstanding, a)
      ensures RightsAt(base', a) !! OutstandingAt(l.outstanding, a)
      ensures a in base' ==> a in after.rights
      ensures a in l.rights ==> a in after.rights
    {
      ExtendedAllAt(l.rights, us, a);
      ExtendedAllAt(base, Settled(l.outstanding, us), a);
      SettledAt(l.outstanding, us, a);
    }
  }

  /** Every interleaving of grants, releases and extensions keeps the books. */
  lemma {:induction false} RunKeepsBalance(base: RightsMap, l: Ledger, es: seq<Event>)
    requires Balanced(base, l)
    ensures Balanced(RunBase(base, l, es), RunLedger(l, es))
    decreases |es|
  {
    if es != [] {
      match es[0] {
        case Granting(u) => GrantingKeepsBalance(base, l, u);
        case Releasing(i) => ReleasingKeepsBalance(base, l, i);
        case Extending(us) => ExtendingKeepsBalance(base, l, us);
      }
      RunKeepsBalance(StepBase(base, l, es[0]), StepLedger(l, es[0]), es[1..]);
    }
  }

  /** The right was listed for the address by event `i`, at a moment when it was not outstanding there. */
  predicate ExtendedFree(l: Ledger, es: seq<Event>, i: nat, a: Addr, r: Right)
    requires i < |es|
  {
    && es[i].Extending? && r in ListedAt(es[i].urefs, a)
    && r !in OutstandingAt(RunLedger(l, es[..i]).outstanding, a)
  }

  /** The base grows by exactly the rights extended while they were not outstanding. */
  lemma {:induction false} RunBaseAt(base: RightsMap, l: Ledger, es: seq<Event>, a: Addr, r: Right)
    ensures r in RightsAt(RunBase(base, l, es), a)
       <==> r in RightsAt(base, a) || exists i | 0 <= i < |es| :: ExtendedFree(l, es, i, a, r)
    decreases |es|
  {
    if es != [] {
      var e, rest := es[0], es[1..];
      var l' := StepLedger(l, e);
      RunBaseAt(StepBase(base, l, e), l', rest, a, r);
      StepBaseAt(base, l, es, a, r);
      forall i | 0 <= i < |rest| ensures ExtendedFree(l', rest, i, a, r) == ExtendedFree(l, es, i + 1, a, r) {
        assert es[..i + 1][0] == e && es[..i + 1][1..] == rest[..i];
      }
      if i: int :| 0 <= i < |es| && ExtendedFree(l, es, i, a, r) {
        assert i > 0 ==> ExtendedFree(l', rest, i - 1, a, r);
      }
      if i: int :| 0 <= i < |rest| && ExtendedFree(l', rest, i, a, r) {
        assert ExtendedFree(l, es, i + 1, a, r);
      }
    }
  }

  lemma StepBaseAt(base: RightsMap, l: Ledger, es: seq<Event>, a: Addr, r: Right)
    requires es != []
    ensures r in RightsAt(StepBase(base, l, es[0]), a) <==> r in RightsAt(base, a) || ExtendedFree(l, es, 0, a, r)
  {
    assert RunLedger(l, es[..0]) == l;
    if es[0].Extending? {
      ExtendedAllAt(base, Settled(l.outstanding, es[0].urefs), a);
      SettledAt(l.outstanding, es[0].urefs, a);
    }
  }

  /** The addresses that events mention. */
  function NamedAddrs(es: seq<Event>): set<Addr> {
    if es == [] then {} else
    (match es[0] {
       case Granting(u) => {u.addr}
       case Releasing(_) => {}
       case Extending(us) => set u | u in us :: u.addr
     }) + NamedAddrs(es[1..])
  }

  /** Addresses are only ever added, and only by grants and extensions. */
  lemma {:induction false} RunKeys(l: Ledger, es: seq<Event>)
    ensures RunLedger(l, es).rights.Keys == l.rights.Keys + NamedAddrs(es)
    decreases |es|
  {
    if es != [] {
      var after := StepLedger(l, es[0]);
      if es[0].Extending? {
        var us := es[0].urefs;
        forall a ensures a in after.rights <==> a in l.rights || a in (set u | u in us :: u.addr) {
          ExtendedAllAt(l.rights, us, a);
          if u :| u in us && u.addr == a {
            var i :| 0 <= i < |us| && us[i] == u;
          }
        }
      }
      RunKeys(after, es[1..]);
    }
  }

  /**
   Once everything granted has been taken back, a right is held exactly if it was in the base, or was
   extended at a moment when it was not outstanding.  An address is known exactly if it was known or named.
   */
  lemma ReleasedKeeps(base: RightsMap, l: Ledger, es: seq<Event>, u: URef)
    requires Balanced(base, l) && RunLedger(l, es).outstanding == []
    ensures HasAccess(RunLedger(l, es).rights, u)
       <==> && (u.addr in l.rights || u.addr in NamedAddrs(es))
            && forall r | r in u.rights ::
                 r in RightsAt(base, u.addr) || exists i | 0 <= i < |es| :: ExtendedFree(l, es, i, u.addr, r)
  {
    RunKeepsBalance(base, l, es);
    RunKeys(l, es);
    var after := RunLedger(l, es).rights;
    forall r
      ensures r in RightsAt(after, u.addr) <==>
                r in RightsAt(base, u.addr) || exists i | 0 <= i < |es| :: ExtendedFree(l, es, i, u.addr, r)
    {
      RunBaseAt(base, l, es, u.addr, r);
      assert RightsAt(after, u.addr) == RightsAt(RunBase(base, l, es), u.addr) + OutstandingAt([], u.addr);
    }
  }

  predicate NoExtension(es: seq<Event>) {
    forall i | 0 <= i < |es| :: !es[i].Extending?
  }

  lemma {:induction false} NoExtensionKeepsBase(base: RightsMap, l: Ledger, es: seq<Event>)
    requires NoExtension(es)
    ensures RunBase(base, l, es) == base
    decreases |es|
  {
    if es != [] {
      NoExtensionKeepsBase(base, StepLedger(l, es[0]), es[1..]);
    }
  }

  /** Grants and releases alone: once all is taken back, every reference with a right is answered as at the start. */
  lemma ReleasedRestores(base: RightsMap, es: seq<Event>, u: URef)
    requires NoExtension(es) && RunLedger(Ledger(base, []), es).outstanding == []
    ensures var after := RunLedger(Ledger(base, []), es).rights;
            if u.rights != {} then HasAccess(after, u) <==> HasAccess(base, u)
            else HasAccess(after, u) <==> u.addr in base || u.addr in NamedAddrs(es)
  {
    ReleasedKeeps(base, Ledger(base, []), es, u);
  }

  /** During the run, a reference at hand is either from the base or covered by what is outstanding. */
  lemma HeldDuringRun(base: RightsMap, es: seq<Event>, u: URef)
    requires u.rights != {}
    ensures var start := Ledger(base, []);
            var l := RunLedger(start, es);
            HasAccess(l.rights, u) <==>
              u.rights <= RightsAt(RunBase(base, start, es), u.addr) + OutstandingAt(l.outstanding, u.addr)
  {
    RunKeepsBalance(base, Ledger(base, []), es);
  }

  // ----- Extending while grants are outstanding --------------------------------------------------

  /**
   A reference extended while grants are outstanding survives their release exactly when none of its
   rights is outstanding at that moment.
   */
  lemma ExtensionSurvives(base: RightsMap, l: Ledger, u: URef, es: seq<Event>)
    requires Balanced(base, l) && NoExtension(es)
    requires RunLedger(StepLedger(l, Extending([u])), es).outstanding == []
    ensures HasAccess(RunLedger(StepLedger(l, Extending([u])), es).rights, u)
       <==> u.rights !! OutstandingAt(l.outstanding, u.addr)
  {
    var extending := Extending([u]);
    var base', l' := StepBase(base, l, extending), StepLedger(l, extending);
    ExtendingKeepsBalance(base, l, [u]);
    RunKeepsBalance(base', l', es);
    NoExtensionKeepsBase(base', l', es);
    RunKeys(l', es);
    ExtendedAllAt(l.rights, [u], u.addr);
    ExtendedAllAt(base, Settled(l.outstanding, [u]), u.addr);
    SettledAt(l.outstanding, [u], u.addr);
    var after := RunLedger(l', es).rights;
    assert RightsAt(after, u.addr) == RightsAt(base', u.addr) + OutstandingAt([], u.addr);
    assert ListedAt([u], u.addr) == u.rights by { assert [u][1..] == []; }
    assert [u][0].addr == u.addr;
  }

  /** Such a loss at a concrete run: granted, extended, released. */
  lemma ExtensionLostOnRelease(u: URef)
    requires u.rights != {}
    ensures var start := Ledger(map[], []);
            && HasAccess(RunLedger(start, [Extending([u])]).rights, u)
            && !HasAccess(RunLedger(start, [Granting(u), Extending([u]), Releasing(0)]).rights, u)
  {
    var start := Ledger(map[], []);
    var granted := StepLedger(start, Granting(u));
    RunOfThree(start, Granting(u), Extending([u]), Releasing(0));
    ExtendedAllAt(granted.rights, [u], u.addr);
    ExtendedAllAt(map[], [u], u.addr);
    assert ListedAt([u], u.addr) == u.rights by { assert [u][1..] == []; }
    assert RunLedger(start, [Extending([u])]) == StepLedger(start, Extending([u]));
  }

  lemma RunOfThree(l: Ledger, a: Event, b: Event, c: Event)
    ensures RunLedger(l, [a, b, c]) == StepLedger(StepLedger(StepLedger(l, a), b), c)
  {
    hide StepLedger;
    assert [a, b, c][1..] == [b, c] && [b, c][1..] == [c] && [c][1..] == [];
    assert RunLedger(StepLedger(StepLedger(l, a), b), [c]) == StepLedger(StepLedger(StepLedger(l, a), b), c);
  }
}
