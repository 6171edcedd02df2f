/** Members, recovery threshold and service status of the governance tables. */
module Governance {
  import opened Wrappers

  const MAX_ACTIVE_RECOVERY_MEMBERS: nat := 255

  type Id = string
  type Pem = string
  datatype MemberStatus = Accepted | Active
  datatype ServiceStatus = Opening | Open | WaitingForRecoveryShares | Recovering
  datatype Service = Service(cert: Pem, status: ServiceStatus, recoveryCount: nat)

  /** The tables a governance transaction reads and writes. */
  datatype Tables = Tables(
    certs: map<Id, Pem>, info: map<Id, MemberStatus>, encryptionKeys: map<Id, Pem>, acks: map<Id, Option<string>>,
    service: Option<Service>, threshold: Option<nat>)

  /** What a call answers: a value, or an exception. */
  datatype Reply = Answer(ok: bool) | Thrown

  datatype Step =
    | AddMember(id: Id, cert: Pem, key: Option<Pem>, root: Option<string>)
    | ActivateMember(id: Id)
    | RemoveMember(id: Id)
    | CreateService(cert: Pem, recovering: bool)
    | AwaitShares
    | OpenService
    | InitConfiguration(threshold: nat)
    | SetThreshold(threshold: nat)

  /** Active members with an encryption key. */
  function ActiveRecovery(t: Tables): (s: set<Id>)
  {
    set id | id in t.encryptionKeys && id in t.info && t.info[id] == Active
  }

  /** Counting throws on a key without member information. */
  predicate Countable(t: Tables)
  {
    forall id :: id in t.encryptionKeys ==> id in t.info
  }

  function Activate(t: Tables, id: Id): (r: (Tables, Reply))
  {
    if id !in t.info then (t, Thrown)
    else if id in t.encryptionKeys && (!Countable(t) || |ActiveRecovery(t)| >= MAX_ACTIVE_RECOVERY_MEMBERS)
    then (t, Thrown)
    else (t.(info := t.info[id := Active]), Answer(true))
  }

  function Remove(t: Tables, id: Id): (r: (Tables, Reply))
  {
    if id !in t.info then (t, Answer(true))
    else if t.info[id] == Active && id in t.encryptionKeys && (!Countable(t) || t.threshold.None?) then (t, Thrown)
    else if t.info[id] == Active && id in t.encryptionKeys && |ActiveRecovery(t)| - 1 < t.threshold.value
    then (t, Answer(false))
    else (t.(info := t.info - {id}, encryptionKeys := t.encryptionKeys - {id}, certs := t.certs - {id},
             acks := t.acks - {id}),
          Answer(true))
  }

  function OpenIt(t: Tables): (r: (Tables, Reply))
  {
    if !Countable(t) || t.threshold.None? then (t, Thrown)
    else if |ActiveRecovery(t)| < t.threshold.value || t.service.None? then (t, Answer(false))
    else
      var s := t.service.value;
      if s.status == Open then (t, Answer(true))
      else if s.status != Opening && s.status != WaitingForRecoveryShares then (t, Answer(false))
      else (t.(service := Some(s.(status := Open))), Answer(true))
  }

  function Threshold(t: Tables, n: nat): (r: (Tables, Reply))
  {
    if n == 0 || t.service.None? || t.service.value.status == WaitingForRecoveryShares then (t, Answer(false))
    else if t.service.value.status == Open && !Countable(t) then (t, Thrown)
    else if t.service.value.status == Open && n > |ActiveRecovery(t)| then (t, Answer(false))
    else if t.threshold.None? then (t, Thrown)
    else (t.(threshold := Some(n)), Answer(true))
  }

  function Create(t: Tables, cert: Pem, recovering: bool): (r: (Tables, Reply))
  {
    var count := if t.service.Some? then t.service.value.recoveryCount + 1 else 0;
    (t.(service := Some(Service(cert, if recovering then Recovering else Opening, count))), Answer(true))
  }

  function Add(t: Tables, id: Id, cert: Pem, key: Option<Pem>, root: Option<string>): (r: (Tables, Reply))
  {
    if id in t.certs then (t, Answer(true))
    else
      (t.(certs := t.certs[id := cert], info := t.info[id := Accepted], acks := t.acks[id := root],
          encryptionKeys := if key.Some? then t.encryptionKeys[id := key.value] else t.encryptionKeys),
       Answer(true))
  }

  /** One governance step. AwaitShares is the node's own transition of a service that is neither open nor waiting. */
  function Apply(t: Tables, step: Step): (r: (Tables, Reply))
  {
    match step
    case AddMember(id, cert, key, root) => Add(t, id, cert, key, root)
    case ActivateMember(id) => Activate(t, id)
    case RemoveMember(id) => Remove(t, id)
    case CreateService(cert, recovering) => Create(t, cert, recovering)
    case AwaitShares =>
      if t.service.None? then (t, Thrown)
      else if t.service.value.status == Open || t.service.value.status == WaitingForRecoveryShares
      then (t, Answer(true))
      else (t.(service := Some(t.service.value.(status := WaitingForRecoveryShares))), Answer(true))
    case OpenService => OpenIt(t)
    case InitConfiguration(n) => if t.threshold.Some? then (t, Thrown) else (t.(threshold := Some(n)), Answer(true))
    case SetThreshold(n) => Threshold(t, n)
  }

  function ApplyAll(t: Tables, steps: seq<Step>): (r: Tables)
  {
    if steps == [] then t else Apply(ApplyAll(t, steps[..|steps| - 1]), steps[|steps| - 1]).0
  }

  const EMPTY: Tables := Tables(map[], map[], map[], map[], None, None)

  /** Keys, certificates and acknowledgements belong to members, the number of active recovery members is limited,
      and an open service has enough of them. */
  ghost predicate Invariant(t: Tables)
  {
    && Countable(t) && t.certs.Keys == t.info.Keys && t.acks.Keys == t.info.Keys
    && |ActiveRecovery(t)| <= MAX_ACTIVE_RECOVERY_MEMBERS
    && (t.service.Some? && t.service.value.status == Open ==>
          t.threshold.Some? && t.threshold.value <= |ActiveRecovery(t)|)
  }

  /** A new member is not active, so the recovery members are the same. */
  lemma AddKeeps(t: Tables, id: Id, cert: Pem, key: Option<Pem>, root: Option<string>)
    requires Invariant(t)
    ensures Invariant(Add(t, id, cert, key, root).0)
  {
    var u := Add(t, id, cert, key, root).0;
    if id !in t.certs {
      assert id !in t.info.Keys;
      assert ActiveRecovery(u) == ActiveRecovery(t);
    }
  }

  lemma ActivateKeeps(t: Tables, id: Id)
    requires Invariant(t)
    ensures Invariant(Activate(t, id).0)
  {
    var u := Activate(t, id).0;
    if u != t {
      assert u.info.Keys == t.info.Keys;
      if id in t.encryptionKeys {
        assert ActiveRecovery(u) == ActiveRecovery(t) + {id};
      } else {
        assert ActiveRecovery(u) == ActiveRecovery(t);
      }
    }
  }

  lemma RemoveKeeps(t: Tables, id: Id)
    requires Invariant(t)
    ensures Invariant(Remove(t, id).0)
  {
    var u := Remove(t, id).0;
    if u != t {
      assert u.info.Keys == t.info.Keys - {id} && u.certs.Keys == t.certs.Keys - {id} &&
        u.acks.Keys == t.acks.Keys - {id};
      assert ActiveRecovery(u) == ActiveRecovery(t) - {id};
      if t.info[id] == Active && id in t.encryptionKeys {
        assert id in ActiveRecovery(t);
      } else {
        assert ActiveRecovery(t) - {id} == ActiveRecovery(t);
      }
    }
  }

  /** Every step keeps the invariant. */
  lemma StepKeeps(t: Tables, step: Step)
    requires Invariant(t)
    ensures Invariant(Apply(t, step).0)
  {
    match step
    case AddMember(id, cert, key, root) => AddKeeps(t, id, cert, key, root);
    case ActivateMember(id) => ActivateKeeps(t, id);
    case RemoveMember(id) => RemoveKeeps(t, id);
    case _ => assert ActiveRecovery(Apply(t, step).0) == ActiveRecovery(t);
  }

  /** After any sequence of steps: the limit holds, an open service has its threshold of active recovery members,
      and counting them does not throw. */
  lemma {:induction false} EverySequenceIsSafe(steps: seq<Step>)
    ensures Invariant(ApplyAll(EMPTY, steps))
  {
    if steps == [] {
      assert ActiveRecovery(EMPTY) == {};
    } else {
      EverySequenceIsSafe(steps[..|steps| - 1]);
      StepKeeps(ApplyAll(EMPTY, steps[..|steps| - 1]), steps[|steps| - 1]);
    }
  }

  /** A refused or failed step changes nothing. */
  lemma RefusalChangesNothing(t: Tables, step: Step)
    ensures Apply(t, step).1 != Answer(true) ==> Apply(t, step).0 == t
  {
  }

  /** In a reachable state only these steps throw. */
  lemma OnlyTheseThrow(t: Tables, step: Step)
    requires Invariant(t)
    ensures Apply(t, step).1 == Thrown <==>
            match step
            case ActivateMember(id) =>
              id !in t.info || (id in t.encryptionKeys && |ActiveRecovery(t)| == MAX_ACTIVE_RECOVERY_MEMBERS)
            case RemoveMember(id) => id in ActiveRecovery(t) && t.threshold.None?
            case AwaitShares => t.service.None?
            case OpenService => t.threshold.None?
            case InitConfiguration(_) => t.threshold.Some?
            case SetThreshold(n) =>
              n > 0 && t.threshold.None? && t.service.Some? && t.service.value.status in {Opening, Recovering}
            case _ => false
  {
  }

  /** Number of create steps. */
  function Creations(steps: seq<Step>): (n: nat)
  {
    if steps == [] then 0 else Creations(steps[..|steps| - 1]) + (if steps[|steps| - 1].CreateService? then 1 else 0)
  }

  /** The recorded recoveries are the service creations after the first. */
  lemma {:induction false} RecoveriesCounted(steps: seq<Step>)
    ensures var t := ApplyAll(EMPTY, steps);
            if Creations(steps) == 0 then t.service.None?
            else t.service.Some? && t.service.value.recoveryCount + 1 == Creations(steps)
  {
    if steps != [] {
      RecoveriesCounted(steps[..|steps| - 1]);
      StepCounts(ApplyAll(EMPTY, steps[..|steps| - 1]), steps[|steps| - 1]);
    }
  }

  /** How a step changes the recovery count. */
  lemma StepCounts(t: Tables, step: Step)
    ensures var u := Apply(t, step).0;
            if step.CreateService? then
              u.service.Some? && u.service.value.recoveryCount ==
                (if t.service.Some? then t.service.value.recoveryCount + 1 else 0)
            else u.service.Some? == t.service.Some? &&
                 (u.service.Some? ==> u.service.value.recoveryCount == t.service.value.recoveryCount)
  {
  }

  /** There is a configuration exactly when it was initialised; from then on initialising throws. */
  lemma {:induction false} ConfiguredOnce(steps: seq<Step>)
    ensures ApplyAll(EMPTY, steps).threshold.Some? <==> exists i :: 0 <= i < |steps| && steps[i].InitConfiguration?
    ensures forall n :: (Apply(ApplyAll(EMPTY, steps), InitConfiguration(n)).1 == Thrown <==>
                         exists i :: 0 <= i < |steps| && steps[i].InitConfiguration?)
  {
    if steps != [] {
      ConfiguredOnce(steps[..|steps| - 1]);
      StepConfigures(ApplyAll(EMPTY, steps[..|steps| - 1]), steps[|steps| - 1]);
    }
  }

  lemma StepConfigures(t: Tables, step: Step)
    ensures Apply(t, step).0.threshold.Some? <==> t.threshold.Some? || step.InitConfiguration?
  {
  }

  /** No service is created by these steps. */
  predicate NoCreation(steps: seq<Step>)
  {
    forall i :: 0 <= i < |steps| ==> !steps[i].CreateService?
  }

  predicate SharesAwaited(steps: seq<Step>)
  {
    exists i :: 0 <= i < |steps| && steps[i].AwaitShares?
  }

  lemma StepStatus(t: Tables, step: Step)
    requires t.service.Some? && !step.CreateService?
    ensures var u := Apply(t, step).0;
            u.service.Some? && (u.service.value.status == Recovering <==>
                                t.service.value.status == Recovering && !step.AwaitShares?)
  {
  }

  lemma AwaitedSnoc(steps: seq<Step>, step: Step)
    ensures SharesAwaited(steps + [step]) <==> SharesAwaited(steps) || step.AwaitShares?
  {
    var all := steps + [step];
    if SharesAwaited(steps) {
      var i :| 0 <= i < |steps| && steps[i].AwaitShares?;
      assert all[i].AwaitShares?;
    }
    assert all[|steps|] == step;
  }

  /** A service is recovering exactly when it was created so and no shares were awaited since. */
  lemma {:induction false} StatusAfter(t: Tables, cert: Pem, recovering: bool, steps: seq<Step>)
    requires Invariant(t) && NoCreation(steps)
    ensures var u := ApplyAll(Apply(t, CreateService(cert, recovering)).0, steps);
            && Invariant(u) && u.service.Some?
            && (u.service.value.status == Recovering <==> recovering && !SharesAwaited(steps))
  {
    var start := Apply(t, CreateService(cert, recovering)).0;
    if steps == [] {
      StepKeeps(t, CreateService(cert, recovering));
    } else {
      var front, last := steps[..|steps| - 1], steps[|steps| - 1];
      StatusAfter(t, cert, recovering, front);
      StepKeeps(ApplyAll(start, front), last);
      StepStatus(ApplyAll(start, front), last);
      assert steps == front + [last];
      AwaitedSnoc(front, last);
    }
  }

  /** After a creation, whatever steps follow short of another one: opening succeeds exactly with a configuration and
      enough active recovery members, and for a recovering service not before shares are awaited. */
  lemma OpensAfterCreation(t: Tables, cert: Pem, recovering: bool, steps: seq<Step>)
    requires Invariant(t) && NoCreation(steps)
    ensures var u := ApplyAll(Apply(t, CreateService(cert, recovering)).0, steps);
            Apply(u, OpenService).1 == Answer(true) <==>
            && (recovering ==> SharesAwaited(steps))
            && u.threshold.Some? && u.threshold.value <= |ActiveRecovery(u)|
  {
    StatusAfter(t, cert, recovering, steps);
    OpenMeans(ApplyAll(Apply(t, CreateService(cert, recovering)).0, steps));
  }

  predicate NoOpening(steps: seq<Step>)
  {
    forall i :: 0 <= i < |steps| ==> !steps[i].OpenService?
  }

  lemma StepWaits(t: Tables, step: Step)
    requires t.service.Some? && t.service.value.status == WaitingForRecoveryShares && t.threshold.Some?
    requires !step.CreateService? && !step.OpenService?
    ensures var u := Apply(t, step).0; u.service == t.service && u.threshold == t.threshold
  {
  }

  /** From when shares are awaited for a service that is not open, until it is opened or another one is created, the
      service waits and nothing changes the threshold. */
  lemma {:induction false} WaitingFreezes(t: Tables, steps: seq<Step>)
    requires t.service.Some? && t.service.value.status != Open && t.threshold.Some?
    requires NoCreation(steps) && NoOpening(steps)
    ensures var u := ApplyAll(Apply(t, AwaitShares).0, steps);
            u.service == Some(t.service.value.(status := WaitingForRecoveryShares)) && u.threshold == t.threshold
  {
    if steps != [] {
      var front := steps[..|steps| - 1];
      WaitingFreezes(t, front);
      StepWaits(ApplyAll(Apply(t, AwaitShares).0, front), steps[|steps| - 1]);
    }
  }

  /** The rows of one member. */
  datatype Rows = Rows(cert: Option<Pem>, status: Option<MemberStatus>, key: Option<Pem>, ack: Option<Option<string>>)

  function Lookup<V>(m: map<Id, V>, id: Id): (r: Option<V>)
  {
    if id in m then Some(m[id]) else None
  }

  function RowsOf(t: Tables, id: Id): (r: Rows)
  {
    Rows(Lookup(t.certs, id), Lookup(t.info, id), Lookup(t.encryptionKeys, id), Lookup(t.acks, id))
  }

  /** Members other than id are as they were, and so are service and threshold. */
  ghost predicate OnlyMember(t: Tables, u: Tables, id: Id)
  {
    u.service == t.service && u.threshold == t.threshold && forall m :: m != id ==> RowsOf(u, m) == RowsOf(t, m)
  }

  /** A known certificate changes nothing; a new member is accepted and not yet active, so the recovery members stay. */
  ghost predicate Adds(t: Tables, u: Tables, id: Id, cert: Pem, key: Option<Pem>, root: Option<string>)
  {
    && OnlyMember(t, u, id) && u.certs.Keys == t.certs.Keys + {id}
    && (id in t.certs ==> u == t)
    && (id !in t.certs ==>
         RowsOf(u, id) == Rows(Some(cert), Some(Accepted), if key.Some? then key else RowsOf(t, id).key, Some(root)))
    && (Invariant(t) ==> ActiveRecovery(u) == ActiveRecovery(t))
  }

  lemma AddOthers(t: Tables, id: Id, cert: Pem, key: Option<Pem>, root: Option<string>)
    ensures OnlyMember(t, Add(t, id, cert, key, root).0, id)
  {
  }

  lemma AddMeans(t: Tables, id: Id, cert: Pem, key: Option<Pem>, root: Option<string>)
    ensures Adds(t, Add(t, id, cert, key, root).0, id, cert, key, root)
  {
    var u := Add(t, id, cert, key, root).0;
    if id in t.certs {
      assert t.certs.Keys == t.certs.Keys + {id};
    } else {
      AddOthers(t, id, cert, key, root);
      assert u.certs.Keys == t.certs.Keys + {id};
      if Invariant(t) {
        assert id !in t.info.Keys;
        assert ActiveRecovery(u) == ActiveRecovery(t);
      }
    }
  }

  /** Activation adds to the recovery members exactly a member with a key, and throws exactly without the member or
      at the limit. */
  ghost predicate Activates(t: Tables, u: Tables, id: Id, reply: Reply)
  {
    && OnlyMember(t, u, id) && (reply == Answer(true) || (reply == Thrown && u == t))
    && (reply == Answer(true) ==> RowsOf(u, id) == RowsOf(t, id).(status := Some(Active)) && id in t.info)
    && (reply == Answer(true) ==> ActiveRecovery(u) == ActiveRecovery(t) + if id in t.encryptionKeys then {id} else {})
    && (Invariant(t) ==> (reply == Thrown <==>
          id !in t.info || (id in t.encryptionKeys && |ActiveRecovery(t)| == MAX_ACTIVE_RECOVERY_MEMBERS)))
  }

  lemma ActivateMeans(t: Tables, id: Id)
    ensures Activates(t, Activate(t, id).0, id, Activate(t, id).1)
  {
    var u := Activate(t, id).0;
    if Activate(t, id).1 == Answer(true) {
      forall m | m != id ensures RowsOf(u, m) == RowsOf(t, m) {
      }
      assert ActiveRecovery(u) == ActiveRecovery(t) + if id in t.encryptionKeys then {id} else {};
    }
  }

  /** A removed member is in no table; removal is refused exactly when too few recovery members would remain. */
  ghost predicate Removes(t: Tables, u: Tables, id: Id, reply: Reply)
  {
    && OnlyMember(t, u, id) && (reply != Answer(true) ==> u == t)
    && (reply == Answer(true) ==> id !in u.info && ActiveRecovery(u) == ActiveRecovery(t) - {id})
    && (Invariant(t) ==> (reply == Answer(true) ==> RowsOf(u, id) == Rows(None, None, None, None)))
    && (Invariant(t) ==> (reply == Answer(false) <==>
          id in ActiveRecovery(t) && t.threshold.Some? && |ActiveRecovery(t)| <= t.threshold.value))
  }

  lemma RemoveOthers(t: Tables, id: Id)
    ensures OnlyMember(t, Remove(t, id).0, id)
  {
  }

  lemma RemoveRecovery(t: Tables, id: Id)
    requires Remove(t, id).1 == Answer(true)
    ensures ActiveRecovery(Remove(t, id).0) == ActiveRecovery(t) - {id}
  {
  }

  lemma RemoveRows(t: Tables, id: Id)
    requires Invariant(t) && Remove(t, id).1 == Answer(true)
    ensures RowsOf(Remove(t, id).0, id) == Rows(None, None, None, None)
  {
    assert id !in t.info ==> id !in t.certs.Keys && id !in t.acks.Keys;
  }

  lemma RemoveMeans(t: Tables, id: Id)
    ensures Removes(t, Remove(t, id).0, id, Remove(t, id).1)
  {
    RemoveOthers(t, id);
    if Remove(t, id).1 == Answer(true) {
      RemoveRecovery(t, id);
      if Invariant(t) {
        RemoveRows(t, id);
      }
    }
  }

  /** Opening succeeds exactly with enough active recovery members and a service that is not recovering; then it is
      open. */
  ghost predicate Opens(t: Tables, u: Tables, reply: Reply)
  {
    && (reply != Answer(true) ==> u == t)
    && (reply == Answer(true) ==>
          && t.service.Some? && u == t.(service := Some(t.service.value.(status := Open)))
          && u.threshold.Some? && u.threshold.value <= |ActiveRecovery(u)|)
    && (Invariant(t) ==> (reply == Answer(true) <==>
          && t.threshold.Some? && t.threshold.value <= |ActiveRecovery(t)|
          && t.service.Some? && t.service.value.status != Recovering))
  }

  lemma OpenMeans(t: Tables)
    ensures Opens(t, OpenIt(t).0, OpenIt(t).1)
  {
    assert ActiveRecovery(OpenIt(t).0) == ActiveRecovery(t);
  }

  /** The threshold changes only to a positive number that an open service's active recovery members reach,
      and never while the service waits for recovery shares. */
  ghost predicate SetsThreshold(t: Tables, u: Tables, n: nat, reply: Reply)
  {
    && u == t.(threshold := if reply == Answer(true) then Some(n) else t.threshold)
    && (Invariant(t) ==> (reply == Answer(true) <==>
          && 0 < n && t.threshold.Some? && t.service.Some? && t.service.value.status != WaitingForRecoveryShares
          && (t.service.value.status == Open ==> n <= |ActiveRecovery(t)|)))
  }

  /** What a call starts from, and what it then leaves. */
  lemma Kept(t: Tables, step: Step)
    ensures Invariant(t) ==> Invariant(Apply(t, step).0)
  {
    if Invariant(t) {
      StepKeeps(t, step);
    }
  }

  /** The tables, changed in place by each call. */
  class GenesisGenerator {
    const hash: Pem -> Id
    var certs: map<Id, Pem>
    var info: map<Id, MemberStatus>
    var encryptionKeys: map<Id, Pem>
    var acks: map<Id, Option<string>>
    var service: Option<Service>
    var threshold: Option<nat>

    constructor (hash: Pem -> Id)
      ensures Valid() && Contents() == EMPTY && this.hash == hash
    {
      this.hash := hash;
      certs, info, encryptionKeys, acks := map[], map[], map[], map[];
      service, threshold := None, None;
      new;
      assert Recovery() == {};
    }

    ghost function Contents(): (t: Tables)
      reads this
    {
      Tables(certs, info, encryptionKeys, acks, service, threshold)
    }

    ghost predicate Valid()
      reads this
    {
      Invariant(Contents())
    }

    /** The active recovery members. */
    ghost function Recovery(): (s: set<Id>)
      reads this
    {
      ActiveRecovery(Contents())
    }

    method IsRecoveryMember(id: Id) returns (r: bool)
      ensures r <==> id in encryptionKeys
    {
      r := id in encryptionKeys;
    }

    /** The active members among those with a key; None when one of them has no member information. */
    method GetActiveRecoveryMembers() returns (r: Option<map<Id, Pem>>)
      ensures r.Some? <==> Countable(Contents())
      ensures r.Some? ==> r.value.Keys == ActiveRecovery(Contents())
      ensures r.Some? ==> forall id :: id in r.value ==> r.value[id] == encryptionKeys[id]
    {
      var active: map<Id, Pem> := map[];
      var rest := encryptionKeys.Keys;
      while rest != {}
        invariant rest <= encryptionKeys.Keys
        invariant forall id :: id in encryptionKeys && id !in rest ==> id in info
        invariant active.Keys == ActiveRecovery(Contents()) - rest
        invariant forall id :: id in active ==> id in encryptionKeys && active[id] == encryptionKeys[id]
        decreases |rest|
      {
        var id :| id in rest;
        if id !in info {
          return None;
        }
        if info[id] == Active {
          active := active[id := encryptionKeys[id]];
        }
        rest := rest - {id};
      }
      r := Some(active);
    }

    /** The number of active recovery members. */
    method CountActive() returns (r: Option<nat>)
      ensures r == if Countable(Contents()) then Some(|ActiveRecovery(Contents())|) else None
    {
      var members := GetActiveRecoveryMembers();
      if members.None? {
        return None;
      }
      r := Some(|members.value.Keys|);
    }

    method GetRecoveryThreshold() returns (r: Option<nat>)
      ensures r == threshold
    {
      r := threshold;
    }

    method AddNewMember(cert: Pem, key: Option<Pem>, root: Option<string>) returns (id: Id)
      modifies this
      ensures old(Valid()) ==> Valid()
      ensures id == hash(cert) && Adds(old(Contents()), Contents(), id, cert, key, root)
      ensures Contents() == Apply(old(Contents()), AddMember(id, cert, key, root)).0
    {
      id := hash(cert);
      ghost var after := Add(Contents(), id, cert, key, root).0;
      AddMeans(Contents(), id, cert, key, root);
      Kept(Contents(), AddMember(id, cert, key, root));
      if id in certs {
        assert Contents() == after;
        return;
      }
      certs := certs[id := cert];
      info := info[id := Accepted];
      if key.Some? {
        encryptionKeys := encryptionKeys[id := key.value];
      }
      acks := acks[id := root];
      assert Contents() == after;
    }

    method Activate(id: Id) returns (reply: Reply)
      modifies this
      ensures old(Valid()) ==> Valid()
      ensures Activates(old(Contents()), Contents(), id, reply)
      ensures (Contents(), reply) == Apply(old(Contents()), ActivateMember(id))
    {
      ActivateMeans(Contents(), id);
      Kept(Contents(), ActivateMember(id));
      if id !in info {
        return Thrown;
      }
      var recovery := IsRecoveryMember(id);
      if recovery {
        var count := CountActive();
        if count.None? || count.value >= MAX_ACTIVE_RECOVERY_MEMBERS {
          return Thrown;
        }
      }
      info := info[id := Active];
      reply := Answer(true);
    }

    method Remove(id: Id) returns (reply: Reply)
      modifies this
      ensures old(Valid()) ==> Valid()
      ensures Removes(old(Contents()), Contents(), id, reply)
      ensures (Contents(), reply) == Apply(old(Contents()), RemoveMember(id))
    {
      RemoveMeans(Contents(), id);
      Kept(Contents(), RemoveMember(id));
      if id !in info {
        return Answer(true);
      }
      var recovery := IsRecoveryMember(id);
      if info[id] == Active && recovery {
        var count := CountActive();
        if count.None? {
          return Thrown;
        }
        var limit := GetRecoveryThreshold();
        if limit.None? {
          return Thrown;
        }
        assert id in ActiveRecovery(Contents());
        if count.value - 1 < limit.value {
          return Answer(false);
        }
      }
      info, encryptionKeys, certs, acks := info - {id}, encryptionKeys - {id}, certs - {id}, acks - {id};
      reply := Answer(true);
    }

    /** A created service is not open, whatever it was before, and one more creation is on record. */
    method Create(cert: Pem, recovering: bool)
      modifies this
      ensures old(Valid()) ==> Valid()
      ensures service.Some? && service.value.cert == cert && service.value.status in {Opening, Recovering}
      ensures service.value.status == Recovering <==> recovering
      ensures service.value.recoveryCount == if old(service).Some? then old(service).value.recoveryCount + 1 else 0
      ensures Contents() == old(Contents()).(service := service)
      ensures Contents() == Apply(old(Contents()), CreateService(cert, recovering)).0
    {
      Kept(Contents(), CreateService(cert, recovering));
      var recoveryCount := 0;
      if service.Some? {
        recoveryCount := service.value.recoveryCount + 1;
      }
      service := Some(Service(cert, if recovering then Recovering else Opening, recoveryCount));
    }

    method OpenNow() returns (reply: Reply)
      modifies this
      ensures old(Valid()) ==> Valid()
      ensures Opens(old(Contents()), Contents(), reply)
      ensures (Contents(), reply) == Apply(old(Contents()), OpenService)
    {
      OpenMeans(Contents());
      Kept(Contents(), OpenService);
      var count := CountActive();
      if count.None? {
        return Thrown;
      }
      var limit := GetRecoveryThreshold();
      if limit.None? {
        return Thrown;
      }
      if count.value < limit.value {
        return Answer(false);
      }
      if service.None? {
        return Answer(false);
      }
      if service.value.status == Open {
        return Answer(true);
      }
      if service.value.status != Opening && service.value.status != WaitingForRecoveryShares {
        return Answer(false);
      }
      service := Some(service.value.(status := Open));
      reply := Answer(true);
    }

    /** A configuration is set once and never overwritten; an open service has one already. */
    method Init(n: nat) returns (reply: Reply)
      modifies this
      ensures old(Valid()) ==> Valid() && (service.Some? && service.value.status == Open ==> reply == Thrown)
      ensures threshold.Some? && Contents() == old(Contents()).(threshold := threshold)
      ensures if old(threshold).None? then reply == Answer(true) && threshold == Some(n)
              else reply == Thrown && threshold == old(threshold)
      ensures (Contents(), reply) == Apply(old(Contents()), InitConfiguration(n))
    {
      Kept(Contents(), InitConfiguration(n));
      if threshold.Some? {
        return Thrown;
      }
      threshold := Some(n);
      reply := Answer(true);
    }

    method SetRecoveryThreshold(n: nat) returns (reply: Reply)
      modifies this
      ensures old(Valid()) ==> Valid()
      ensures SetsThreshold(old(Contents()), Contents(), n, reply)
      ensures (Contents(), reply) == Apply(old(Contents()), SetThreshold(n))
    {
      Kept(Contents(), SetThreshold(n));
      if n == 0 {
        return Answer(false);
      }
      if service.None? {
        return Answer(false);
      }
      if service.value.status == WaitingForRecoveryShares {
        return Answer(false);
      } else if service.value.status == Open {
        var count := CountActive();
        if count.None? {
          return Thrown;
        }
        if n > count.value {
          return Answer(false);
        }
      }
      if threshold.None? {
        return Thrown;
      }
      threshold := Some(n);
      reply := Answer(true);
    }
  }
}
