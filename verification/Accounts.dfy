/** Weighted account keys and action thresholds, and why an account cannot lock itself out. */
module Accounts {
  import opened Basics

  datatype AccountHash = AccountHash(bytes: Bytes)

  type Weight = U8

  datatype ActionType = Deployment | KeyManagement

  datatype Failure =
    | DuplicateKey
    | MissingKey
    | ThresholdViolation
    | InsufficientTotalWeight
    | DeploymentThreshold
    | KeyManagementThreshold

  type Keys = map<AccountHash, Weight>

  /** What an account holds: its keys with their weights, and the two thresholds. */
  datatype State = State(keys: Keys, deployment: Weight, keyManagement: Weight)

  // ----- Weights ---------------------------------------------------------------------------------

  /** `u8::saturating_add`. */
  function SaturatingAdd(a: Weight, b: Weight): Weight {
    if a + b > 255 then 255 else a + b
  }

  function Saturated(n: nat): Weight {
    if n > 255 then 255 else n
  }

  function WeightOf(keys: Keys, k: AccountHash): nat {
    if k in keys then keys[k] else 0
  }

  /** The exact sum of the weights of a set of keys; a key that is not associated weighs nothing. */
  ghost function Sum(keys: Keys, ks: set<AccountHash>): nat {
    if ks == {} then 0
    else
      var k :| k in ks;
      WeightOf(keys, k) + Sum(keys, ks - {k})
  }

  /** Any key can be taken out of the sum first, so the order of summation does not matter. */
  lemma {:induction false} SumTakeOut(keys: Keys, ks: set<AccountHash>, k: AccountHash)
    requires k in ks
    ensures Sum(keys, ks) == WeightOf(keys, k) + Sum(keys, ks - {k})
    decreases |ks|
  {
    var c :| c in ks && Sum(keys, ks) == WeightOf(keys, c) + Sum(keys, ks - {c});
    if c != k {
      SumTakeOut(keys, ks - {c}, k);
      SumTakeOut(keys, ks - {k}, c);
      assert ks - {c} - {k} == ks - {k} - {c};
    }
  }

  lemma {:induction false} SumMonotone(keys: Keys, ks: set<AccountHash>, more: set<AccountHash>)
    requires ks <= more
    ensures Sum(keys, ks) <= Sum(keys, more)
    decreases |ks|
  {
    if ks != {} {
      var k :| k in ks;
      SumTakeOut(keys, ks, k);
      SumTakeOut(keys, more, k);
      SumMonotone(keys, ks - {k}, more - {k});
    }
  }

  /** Only keys of `ks` that are associated matter, and only their own weights. */
  lemma {:induction false} SumDepends(keys: Keys, others: Keys, ks: set<AccountHash>)
    requires forall k | k in ks :: WeightOf(keys, k) == WeightOf(others, k)
    ensures Sum(keys, ks) == Sum(others, ks)
    decreases |ks|
  {
    if ks != {} {
      var k :| k in ks;
      SumTakeOut(keys, ks, k);
      SumTakeOut(others, ks, k);
      SumDepends(keys, others, ks - {k});
    }
  }

  ghost function TotalWeight(keys: Keys): Weight {
    Saturated(Sum(keys, keys.Keys))
  }

  ghost function TotalWeightExcluding(keys: Keys, k: AccountHash): Weight {
    Saturated(Sum(keys, keys.Keys - {k}))
  }

  /** The saturating fold over keys in whatever order they come: the exact sum, cut off at 255. */
  method CalculateKeysWeight(keys: Keys, ks: set<AccountHash>) returns (total: Weight)
    ensures total == Saturated(Sum(keys, ks))
  {
    total := 0;
    var rest := ks;
    while rest != {}
      invariant rest <= ks
      invariant total == Saturated(Sum(keys, ks - rest))
      decreases rest
    {
      var k :| k in rest;
      SumTakeOut(keys, ks - (rest - {k}), k);
      assert ks - (rest - {k}) - {k} == ks - rest;
      if k in keys {
        total := SaturatingAdd(total, keys[k]);
      }
      rest := rest - {k};
    }
    assert ks - {} == ks;
  }

  // ----- Operations ------------------------------------------------------------------------------

  datatype Operation =
    | AddKey(key: AccountHash, weight: Weight)
    | RemoveKey(key: AccountHash)
    | UpdateKey(key: AccountHash, weight: Weight)
    | SetThreshold(action: ActionType, threshold: Weight)

  /** The new state and the answer of one operation. */
  ghost function Step(s: State, op: Operation): (State, Result<(), Failure>) {
    match op
    case AddKey(k, w) =>
      if k in s.keys then (s, Err(DuplicateKey)) else (s.(keys := s.keys[k := w]), Ok(()))
    case RemoveKey(k) =>
      if k !in s.keys then (s, Err(MissingKey))
      else
        var left := TotalWeightExcluding(s.keys, k);
        if left >= s.deployment && left >= s.keyManagement then (s.(keys := s.keys - {k}), Ok(()))
        else (s, Err(ThresholdViolation))
    case UpdateKey(k, w) =>
      if k !in s.keys then (s, Err(MissingKey))
      else
        var total := SaturatingAdd(TotalWeightExcluding(s.keys, k), w);
        if w < s.keys[k] && !(total >= s.deployment && total >= s.keyManagement) then (s, Err(ThresholdViolation))
        else (s.(keys := s.keys[k := w]), Ok(()))
    case SetThreshold(a, w) =>
      if w > TotalWeight(s.keys) then (s, Err(InsufficientTotalWeight))
      else if a.Deployment? then
        if w > s.keyManagement then (s, Err(DeploymentThreshold)) else (s.(deployment := w), Ok(()))
      else
        if s.deployment > w then (s, Err(KeyManagementThreshold)) else (s.(keyManagement := w), Ok(()))
  }

  ghost function Run(s: State, ops: seq<Operation>): State
    decreases |ops|
  {
    if ops == [] then s else Run(Step(s, ops[0]).0, ops[1..])
  }

  ghost predicate CanDeployWith(s: State, ks: set<AccountHash>) {
    Saturated(Sum(s.keys, ks)) >= s.deployment
  }

  ghost predicate CanManageKeysWith(s: State, ks: set<AccountHash>) {
    Saturated(Sum(s.keys, ks)) >= s.keyManagement
  }

  class Account {
    var associatedKeys: Keys
    var deployment: Weight
    var keyManagement: Weight

    ghost function Value(): State
      reads this
    {
      State(associatedKeys, deployment, keyManagement)
    }

    /** `Account::create`: one key of weight 1, both thresholds 1. */
    constructor (account: AccountHash)
      ensures Value() == Created(account)
    {
      associatedKeys := map[account := 1];
      deployment, keyManagement := 1, 1;
    }

    /** A known key is refused and nothing changes; otherwise no other key and no threshold changes. */
    method AddAssociatedKey(key: AccountHash, weight: Weight) returns (r: Result<(), Failure>)
      modifies this`associatedKeys
      ensures (Value(), r) == Step(old(Value()), AddKey(key, weight))
      ensures r.Ok? <==> key !in old(associatedKeys)
      ensures r.Ok? ==> associatedKeys.Keys == old(associatedKeys).Keys + {key} && associatedKeys[key] == weight
      ensures r.Err? ==> Value() == old(Value())
      ensures forall k | k != key :: WeightOf(associatedKeys, k) == WeightOf(old(associatedKeys), k)
    {
      if key in associatedKeys {
        return Err(DuplicateKey);
      }
      associatedKeys := associatedKeys[key := weight];
      return Ok(());
    }

    method MayDeployWith(ks: set<AccountHash>) returns (can: bool)
      ensures can == CanDeployWith(Value(), ks)
    {
      var total := CalculateKeysWeight(associatedKeys, ks);
      can := total >= deployment;
    }

    method MayManageKeysWith(ks: set<AccountHash>) returns (can: bool)
      ensures can == CanManageKeysWith(Value(), ks)
    {
      var total := CalculateKeysWeight(associatedKeys, ks);
      can := total >= keyManagement;
    }

    method TotalKeysWeightExcluding(key: AccountHash) returns (total: Weight)
      ensures total == TotalWeightExcluding(associatedKeys, key)
    {
      total := CalculateKeysWeight(associatedKeys, associatedKeys.Keys - {key});
    }

    method CanRemoveKey(key: AccountHash) returns (can: bool)
      ensures var total := TotalWeightExcluding(associatedKeys, key);
              can <==> total >= deployment && total >= keyManagement
    {
      var total := TotalKeysWeightExcluding(key);
      can := total >= deployment && total >= keyManagement;
    }

    method CanUpdateKey(key: AccountHash, weight: Weight) returns (can: bool)
      ensures var total := SaturatingAdd(TotalWeightExcluding(associatedKeys, key), weight);
              can <==> total >= deployment && total >= keyManagement
    {
      var total := TotalKeysWeightExcluding(key);
      var newWeight := SaturatingAdd(total, weight);
      can := newWeight >= deployment && newWeight >= keyManagement;
    }

    method RemoveAssociatedKey(key: AccountHash) returns (r: Result<(), Failure>)
      modifies this
      ensures (Value(), r) == Step(old(Value()), RemoveKey(key))
    {
      if key in associatedKeys {
        var can := CanRemoveKey(key);
        if !can {
          return Err(ThresholdViolation);
        }
      }
      if key !in associatedKeys {
        return Err(MissingKey);
      }
      associatedKeys := associatedKeys - {key};
      return Ok(());
    }

    method UpdateAssociatedKey(key: AccountHash, weight: Weight) returns (r: Result<(), Failure>)
      modifies this
      ensures (Value(), r) == Step(old(Value()), UpdateKey(key, weight))
    {
      if key in associatedKeys && weight < associatedKeys[key] {
        var can := CanUpdateKey(key, weight);
        if !can {
          return Err(ThresholdViolation);
        }
      }
      if key !in associatedKeys {
        return Err(MissingKey);
      }
      associatedKeys := associatedKeys[key := weight];
      return Ok(());
    }

    method SetActionThreshold(action: ActionType, threshold: Weight) returns (r: Result<(), Failure>)
      modifies this
      ensures (Value(), r) == Step(old(Value()), SetThreshold(action, threshold))
    {
      var total := CalculateKeysWeight(associatedKeys, associatedKeys.Keys);
      if threshold > total {
        return Err(InsufficientTotalWeight);
      }
      match action {
        case Deployment =>
          if threshold > keyManagement {
            return Err(DeploymentThreshold);
          }
          deployment := threshold;
        case KeyManagement =>
          if deployment > threshold {
            return Err(KeyManagementThreshold);
          }
          keyManagement := threshold;
      }
      return Ok(());
    }
  }

  // ----- No lock-out -----------------------------------------------------------------------------

  ghost function Created(account: AccountHash): State {
    State(map[account := 1], 1, 1)
  }

  /** All keys together reach both thresholds. */
  ghost predicate Usable(s: State) {
    TotalWeight(s.keys) >= s.deployment && TotalWeight(s.keys) >= s.keyManagement
  }

  /** Deploying never needs more than managing keys. */
  predicate Ordered(s: State) {
    s.deployment <= s.keyManagement
  }

  lemma TotalAfterRemove(keys: Keys, k: AccountHash)
    ensures TotalWeight(keys - {k}) == TotalWeightExcluding(keys, k)
  {
    assert (keys - {k}).Keys == keys.Keys - {k};
    SumDepends(keys - {k}, keys, keys.Keys - {k});
  }

  lemma TotalAfterSet(keys: Keys, k: AccountHash, w: Weight)
    ensures TotalWeight(keys[k := w]) == SaturatingAdd(TotalWeightExcluding(keys, k), w)
  {
    var after := keys[k := w];
    assert after.Keys - {k} == keys.Keys - {k};
    SumTakeOut(after, after.Keys, k);
    SumDepends(after, keys, keys.Keys - {k});
  }

  lemma TotalSplit(keys: Keys, k: AccountHash)
    ensures TotalWeight(keys) == if k in keys then SaturatingAdd(TotalWeightExcluding(keys, k), keys[k])
                                 else TotalWeightExcluding(keys, k)
  {
    if k in keys {
      SumTakeOut(keys, keys.Keys, k);
    } else {
      assert keys.Keys - {k} == keys.Keys;
    }
  }

  /** The state a caller asks for, before any check. */
  function Wanted(s: State, op: Operation): State {
    match op
    case AddKey(k, w) => s.(keys := s.keys[k := w])
    case RemoveKey(k) => s.(keys := s.keys - {k})
    case UpdateKey(k, w) => s.(keys := s.keys[k := w])
    case SetThreshold(a, w) => if a.Deployment? then s.(deployment := w) else s.(keyManagement := w)
  }

  /** The operation names a key of the right kind: a new one to add, an existing one to change. */
  predicate NamesRightKey(s: State, op: Operation) {
    match op
    case AddKey(k, _) => k !in s.keys
    case RemoveKey(k) => k in s.keys
    case UpdateKey(k, _) => k in s.keys
    case SetThreshold(_, _) => true
  }

  /** An operation is accepted exactly when the account it asks for is usable and ordered; then it gets it. */
  lemma AcceptedExactly(s: State, op: Operation)
    requires Usable(s) && Ordered(s)
    ensures Step(s, op).1.Ok? <==> NamesRightKey(s, op) && Usable(Wanted(s, op)) && Ordered(Wanted(s, op))
    ensures Step(s, op).0 == if Step(s, op).1.Ok? then Wanted(s, op) else s
  {
    match op
    case AddKey(k, w) =>
      TotalAfterSet(s.keys, k, w);
      TotalSplit(s.keys, k);
    case RemoveKey(k) => TotalAfterRemove(s.keys, k);
    case UpdateKey(k, w) =>
      TotalAfterSet(s.keys, k, w);
      TotalSplit(s.keys, k);
    case SetThreshold(_, _) =>
  }

  /** Every step, accepted or rejected, keeps a usable account usable; the order of thresholds is not needed for it. */
  lemma StepKeepsUsable(s: State, op: Operation)
    ensures Usable(s) ==> Usable(Step(s, op).0)
    ensures Ordered(s) ==> Ordered(Step(s, op).0)
  {
    match op
    case AddKey(k, w) =>
      TotalAfterSet(s.keys, k, w);
      TotalSplit(s.keys, k);
    case RemoveKey(k) => TotalAfterRemove(s.keys, k);
    case UpdateKey(k, w) =>
      TotalAfterSet(s.keys, k, w);
      TotalSplit(s.keys, k);
    case SetThreshold(_, _) =>
  }

  lemma {:induction false} RunKeepsUsable(s: State, ops: seq<Operation>)
    ensures Usable(s) ==> Usable(Run(s, ops))
    ensures Ordered(s) ==> Ordered(Run(s, ops))
    decreases |ops|
  {
    if ops != [] {
      StepKeepsUsable(s, ops[0]);
      RunKeepsUsable(Step(s, ops[0]).0, ops[1..]);
    }
  }

  /** After any operations on a usable account, any key set that includes all its keys can act. */
  lemma NoLockOut(s: State, ops: seq<Operation>, ks: set<AccountHash>)
    requires Usable(s)
    requires Run(s, ops).keys.Keys <= ks
    ensures CanDeployWith(Run(s, ops), ks) && CanManageKeysWith(Run(s, ops), ks)
  {
    RunKeepsUsable(s, ops);
    var t := Run(s, ops);
    SumMonotone(t.keys, t.keys.Keys, ks);
  }

  lemma CreatedIsUsable(account: AccountHash)
    ensures Usable(Created(account)) && Ordered(Created(account))
  {
    var keys := Created(account).keys;
    SumTakeOut(keys, keys.Keys, account);
    assert keys.Keys - {account} == {};
  }

  lemma {:induction false} RunConcat(s: State, ops: seq<Operation>, more: seq<Operation>)
    ensures Run(s, ops + more) == Run(Run(s, ops), more)
    decreases |ops|
  {
    hide Step;
    if ops == [] {
      assert ops + more == more;
    } else {
      RunConcat(Step(s, ops[0]).0, ops[1..], more);
      assert (ops + more)[1..] == ops[1..] + more;
    }
  }

  lemma RunOfTwo(s: State, a: Operation, b: Operation)
    ensures Run(s, [a, b]) == Step(Step(s, a).0, b).0
  {
    hide Step;
    assert [a, b][1..] == [b] && [b][1..] == [];
    assert Run(Step(s, a).0, [b]) == Step(Step(s, a).0, b).0;
  }

  /** With both thresholds at 0, the keys still missing can be added one by one. */
  lemma {:induction false} AddMissing(have: Keys, want: Keys) returns (ops: seq<Operation>)
    requires forall k | k in have :: k in want && have[k] == want[k]
    ensures Run(State(have, 0, 0), ops) == State(want, 0, 0)
    decreases want.Keys - have.Keys
  {
    if k :| k in want && k !in have {
      assert k in want.Keys - have.Keys && k !in want.Keys - have[k := want[k]].Keys;
      var rest := AddMissing(have[k := want[k]], want);
      ops := [AddKey(k, want[k])] + rest;
      assert ops[1..] == rest;
    } else {
      assert have == want;
      ops := [];
    }
  }

  /** A new account can be emptied. */
  lemma Emptied(account: AccountHash) returns (ops: seq<Operation>)
    ensures Run(Created(account), ops) == State(map[], 0, 0)
  {
    var lower := [SetThreshold(Deployment, 0), SetThreshold(KeyManagement, 0)];
    var remove := [RemoveKey(account)];
    var zero := State(map[account := 1], 0, 0);
    RunOfTwo(Created(account), lower[0], lower[1]);
    assert Step(zero, remove[0]).0 == State(map[], 0, 0) by {
      assert zero.keys - {account} == map[];
    }
    assert Run(zero, remove) == Step(zero, remove[0]).0;
    RunConcat(Created(account), lower, remove);
    ops := lower + remove;
  }

  /** The states that operations can make of a new account are exactly the usable ones with ordered thresholds. */
  lemma ReachableExactly(account: AccountHash, s: State)
    ensures (exists ops :: Run(Created(account), ops) == s) <==> Usable(s) && Ordered(s)
  {
    if ops :| Run(Created(account), ops) == s {
      CreatedIsUsable(account);
      RunKeepsUsable(Created(account), ops);
    }
    if Usable(s) && Ordered(s) {
      var empty := Emptied(account);
      var add := AddMissing(map[], s.keys);
      var raise := [SetThreshold(KeyManagement, s.keyManagement), SetThreshold(Deployment, s.deployment)];
      RunOfTwo(State(s.keys, 0, 0), raise[0], raise[1]);
      RunConcat(Created(account), empty, add);
      RunConcat(Created(account), empty + add, raise);
    }
  }

  /** In every account that operations can make of a new one, whoever may manage keys may also deploy. */
  lemma ManagersCanDeploy(account: AccountHash, ops: seq<Operation>, ks: set<AccountHash>)
    ensures var s := Run(Created(account), ops);
            CanManageKeysWith(s, ks) ==> CanDeployWith(s, ks)
  {
    CreatedIsUsable(account);
    RunKeepsUsable(Created(account), ops);
  }

  /** Keys may act exactly if their weights, added up exactly, reach the threshold of the action. */
  lemma PermittedExactly(s: State, ks: set<AccountHash>)
    ensures CanDeployWith(s, ks) <==> Sum(s.keys, ks) >= s.deployment
    ensures CanManageKeysWith(s, ks) <==> Sum(s.keys, ks) >= s.keyManagement
  {
  }

  /** In a new account exactly the key sets with the account's own key may act; that key weighs 1. */
  lemma CreatedExactly(account: AccountHash, ks: set<AccountHash>)
    ensures var s := Created(account);
            && Sum(s.keys, ks) == (if account in ks then 1 else 0)
            && (CanDeployWith(s, ks) <==> account in ks) && (CanManageKeysWith(s, ks) <==> account in ks)
  {
    var keys := Created(account).keys;
    OnlyAssociatedCount(keys, ks);
    if account in ks {
      SumTakeOut(keys, ks * keys.Keys, account);
      assert ks * keys.Keys - {account} == {};
    } else {
      assert ks * keys.Keys == {};
    }
  }

  /** Why an operation is refused, on any account: a decrease or a removal may not leave it unusable. */
  lemma RefusedExactly(s: State, op: Operation)
    ensures var r := Step(s, op).1;
            match op {
              case AddKey(k, _) => r == if k in s.keys then Err(DuplicateKey) else Ok(())
              case RemoveKey(k) =>
                r == if k !in s.keys then Err(MissingKey)
                     else if !Usable(Wanted(s, op)) then Err(ThresholdViolation) else Ok(())
              case UpdateKey(k, w) =>
                r == if k !in s.keys then Err(MissingKey)
                     else if w < s.keys[k] && !Usable(Wanted(s, op)) then Err(ThresholdViolation) else Ok(())
              case SetThreshold(a, w) =>
                r == if Sum(s.keys, s.keys.Keys) < w then Err(InsufficientTotalWeight)
                     else if Ordered(Wanted(s, op)) then Ok(())
                     else if a.Deployment? then Err(DeploymentThreshold) else Err(KeyManagementThreshold)
            }
  {
    match op
    case RemoveKey(k) => TotalAfterRemove(s.keys, k);
    case UpdateKey(k, w) => TotalAfterSet(s.keys, k, w);
    case _ =>
  }

  /** More keys never lose a permission, and keys that are not associated never gain one. */
  lemma AuthorizationMonotone(s: State, ks: set<AccountHash>, more: set<AccountHash>)
    requires ks <= more
    ensures CanDeployWith(s, ks) ==> CanDeployWith(s, more)
    ensures CanManageKeysWith(s, ks) ==> CanManageKeysWith(s, more)
    ensures CanDeployWith(s, ks) <==> CanDeployWith(s, ks * s.keys.Keys)
    ensures CanManageKeysWith(s, ks) <==> CanManageKeysWith(s, ks * s.keys.Keys)
  {
    SumMonotone(s.keys, ks, more);
    OnlyAssociatedCount(s.keys, ks);
  }

  lemma {:induction false} OnlyAssociatedCount(keys: Keys, ks: set<AccountHash>)
    ensures Sum(keys, ks) == Sum(keys, ks * keys.Keys)
    decreases |ks|
  {
    if k :| k in ks && k !in keys {
      SumTakeOut(keys, ks, k);
      OnlyAssociatedCount(keys, ks - {k});
      assert (ks - {k}) * keys.Keys == ks * keys.Keys;
    } else {
      assert ks * keys.Keys == ks;
    }
  }
}
