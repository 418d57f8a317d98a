/** Runs of the store object: the operations of module `Runs` are its methods. */
module StoreRuns {
  import opened Wrappers
  import opened Types
  import Bootstrap
  import Tables
  import opened Runs
  import opened MemStores

  predicate OnRows(op: Op)
  {
    || op.CreateUser? || op.RemoveUser? || op.Rename? || op.CreateGroup? || op.RemoveGroup?
    || op.CreatePolicy? || op.ReplacePolicy? || op.RemovePolicy?
  }

  predicate OnLinks(op: Op)
  {
    op.Join? || op.Leave? || op.AttachUser? || op.DetachUser? || op.AttachGroup? || op.DetachGroup?
  }

  method PerformOnRows(store: MemStore, op: Op)
    requires OnRows(op)
    modifies store.inner
    ensures store.View() == Apply(old(store.View()), op)
  {
    hide Tables.InsertUser, Tables.DeleteUser, Tables.SetFriendlyName, Tables.InsertGroup, Tables.DeleteGroup,
      Tables.InsertPolicy, Tables.UpdatePolicy, Tables.DeletePolicy, Tables.AddMembership, Tables.RemoveMembership,
      Tables.AttachToUser, Tables.DetachFromUser, Tables.AttachToGroup, Tables.DetachFromGroup, Tables.InsertCredential,
      Tables.DeleteCredential, Tables.InsertExternalPrincipal, Tables.DeleteExternalPrincipal, Tables.ClaimTokenId,
      Tables.DeleteExpiredTokenIds, Tables.Valid, Bootstrap.Bootstrapped, Bootstrap.Extends;
    match op {
      case CreateUser(user) => var _ := store.CreateUser(user);
      case RemoveUser(username) => var _ := store.DeleteUser(username);
      case Rename(username, friendlyName) => var _ := store.SetFriendlyName(username, friendlyName);
      case CreateGroup(group) => var _ := store.CreateGroup(group);
      case RemoveGroup(id) => var _ := store.DeleteGroup(id);
      case CreatePolicy(policy) => var _ := store.CreatePolicy(policy);
      case ReplacePolicy(policy) => var _ := store.UpdatePolicy(policy);
      case RemovePolicy(name) => var _ := store.DeletePolicy(name);
    }
  }

  method PerformOnLinks(store: MemStore, op: Op)
    requires OnLinks(op)
    modifies store.inner
    ensures store.View() == Apply(old(store.View()), op)
  {
    hide Tables.InsertUser, Tables.DeleteUser, Tables.SetFriendlyName, Tables.InsertGroup, Tables.DeleteGroup,
      Tables.InsertPolicy, Tables.UpdatePolicy, Tables.DeletePolicy, Tables.AddMembership, Tables.RemoveMembership,
      Tables.AttachToUser, Tables.DetachFromUser, Tables.AttachToGroup, Tables.DetachFromGroup, Tables.InsertCredential,
      Tables.DeleteCredential, Tables.InsertExternalPrincipal, Tables.DeleteExternalPrincipal, Tables.ClaimTokenId,
      Tables.DeleteExpiredTokenIds, Tables.Valid, Bootstrap.Bootstrapped, Bootstrap.Extends;
    match op {
      case Join(group, username) => var _ := store.AddMembership(group, username);
      case Leave(group, username) => var _ := store.RemoveMembership(group, username);
      case AttachUser(username, policy) => var _ := store.AttachPolicyToUser(username, policy);
      case DetachUser(username, policy) => var _ := store.DetachPolicyFromUser(username, policy);
      case AttachGroup(group, policy) => var _ := store.AttachPolicyToGroup(group, policy);
      case DetachGroup(group, policy) => var _ := store.DetachPolicyFromGroup(group, policy);
    }
  }

  method PerformOnKeys(store: MemStore, op: Op)
    requires !OnRows(op) && !OnLinks(op) && !op.RunBootstrap?
    modifies store.inner
    ensures store.View() == Apply(old(store.View()), op)
  {
    hide Tables.InsertUser, Tables.DeleteUser, Tables.SetFriendlyName, Tables.InsertGroup, Tables.DeleteGroup,
      Tables.InsertPolicy, Tables.UpdatePolicy, Tables.DeletePolicy, Tables.AddMembership, Tables.RemoveMembership,
      Tables.AttachToUser, Tables.DetachFromUser, Tables.AttachToGroup, Tables.DetachFromGroup, Tables.InsertCredential,
      Tables.DeleteCredential, Tables.InsertExternalPrincipal, Tables.DeleteExternalPrincipal, Tables.ClaimTokenId,
      Tables.DeleteExpiredTokenIds, Tables.Valid, Bootstrap.Bootstrapped, Bootstrap.Extends;
    match op {
      case CreateCredential(credential) => var _ := store.CreateCredential(credential);
      case RemoveCredential(username, key) => var _ := store.DeleteCredential(username, key);
      case CreatePrincipal(username, id) => var _ := store.CreateExternalPrincipal(username, id);
      case RemovePrincipal(username, id) => var _ := store.DeleteExternalPrincipal(username, id);
      case Claim(token, expiresAt) => var _ := store.ClaimTokenId(token, expiresAt);
      case Expire(now) => var _ := store.DeleteExpiredTokenIds(now);
    }
  }

  /** One operation is the method of that name. */
  method Perform(store: MemStore, op: Op)
    modifies store, store.inner
    ensures store.View() == Apply(old(store.View()), op)
    ensures store.inner == old(store.inner) || fresh(store.inner)
  {
    hide OnRows, OnLinks, Tables.Valid, Bootstrap.Extends, Bootstrap.Bootstrapped;
    if op.RunBootstrap? {
      var _ := store.ApplyBootstrap(op.plan);
    } else {
      hide Apply;
      if OnRows(op) {
        PerformOnRows(store, op);
      } else if OnLinks(op) {
        PerformOnLinks(store, op);
      } else {
        PerformOnKeys(store, op);
      }
    }
  }

  /** Any operations on a new store: the state is that of the run, and it is valid. */
  method PerformAll(ops: seq<Op>) returns (store: MemStore)
    ensures fresh(store) && fresh(store.inner)
    ensures store.View() == Run(Tables.EMPTY, ops) && Tables.Valid(store.View())
  {
    hide Apply, Tables.Valid;
    store := new MemStore();
    assert ops[0..] == ops;
    for i := 0 to |ops|
      invariant fresh(store) && fresh(store.inner)
      invariant Run(store.View(), ops[i..]) == Run(Tables.EMPTY, ops)
    {
      assert ops[i..][0] == ops[i] && ops[i..][1..] == ops[i + 1..];
      Perform(store, ops[i]);
    }
    ReachableIsValid(ops);
  }
}
