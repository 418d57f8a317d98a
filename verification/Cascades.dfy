/** What the cascades of a delete are for: they remove exactly what must go. The
    measure is the invariant alone, not the way the cascades are written. */
module Cascades {
  import opened Wrappers
  import opened Types
  import opened Tables

  ghost predicate Part<T>(part: map<string, T>, whole: map<string, T>)
  {
    forall key | key in part :: key in whole && part[key] == whole[key]
  }

  /** Some of the rows of `whole`, unchanged; the same counter and token ids. */
  ghost predicate Within(part: Tables, whole: Tables)
  {
    && Part(part.users, whole.users) && Part(part.groups, whole.groups) && Part(part.policies, whole.policies)
    && part.groupMembers <= whole.groupMembers
    && part.userPolicies <= whole.userPolicies
    && part.groupPolicies <= whole.groupPolicies
    && Part(part.credentials, whole.credentials) && Part(part.externalPrincipals, whole.externalPrincipals)
    && part.nextUserId == whole.nextUserId && part.claimedTokenIds == whole.claimedTokenIds
  }

  /** A part of the store that keeps the invariant and lacks what was deleted. */
  ghost predicate Remainder(t: Tables, part: Tables, lacks: Tables -> bool)
  {
    Valid(part) && Within(part, t) && lacks(part)
  }

  /** The largest such part. */
  ghost predicate Largest(t: Tables, part: Tables, lacks: Tables -> bool)
  {
    Remainder(t, part, lacks) && forall other: Tables :: Remainder(t, other, lacks) ==> Within(other, part)
  }

  /** Two parts that contain each other are equal, so there is at most one. */
  lemma LargestIsUnique(t: Tables, a: Tables, b: Tables, lacks: Tables -> bool)
    requires Largest(t, a, lacks) && Largest(t, b, lacks)
    ensures a == b
  {
    hide Valid;
    assert Within(a, b) && Within(b, a);
    assert a.users == b.users && a.groups == b.groups && a.policies == b.policies;
    assert a.credentials == b.credentials && a.externalPrincipals == b.externalPrincipals;
  }

  function LacksUser(username: string): Tables -> bool
  {
    (part: Tables) => username !in part.users
  }

  function LacksGroup(group: string): Tables -> bool
  {
    (part: Tables) => group !in part.groups
  }

  function LacksPolicy(name: string): Tables -> bool
  {
    (part: Tables) => name !in part.policies
  }

  lemma NothingOfTheUserStays(t: Tables, username: string, kept: Tables)
    requires username in t.users && Remainder(t, kept, LacksUser(username))
    ensures Within(kept, DeleteUser(t, username).tables)
  {
    hide KeyedUsers, UniqueIds, UniqueEmails, UniqueExternalIds, KeyedGroups, KeyedPolicies;
    var after := CascadeDeleteUser(t.(users := t.users - {username}), username);
    assert Part(kept.credentials, after.credentials);
    assert Part(kept.externalPrincipals, after.externalPrincipals);
    assert kept.groupMembers <= after.groupMembers && kept.userPolicies <= after.userPolicies;
  }

  /** A delete leaves the largest valid part of the store without the user, and no
      other state is that: it takes the row, and no other row that could have stayed. */
  lemma DeleteUserIsMinimal(t: Tables, username: string, part: Tables)
    requires Valid(t) && username in t.users
    ensures Largest(t, part, LacksUser(username)) <==> part == DeleteUser(t, username).tables
  {
    var after, lacks := DeleteUser(t, username).tables, LacksUser(username);
    DeleteUserKeepsValid(t, username);
    assert Within(after, t) && username !in after.users by { hide Valid; }
    hide Valid, DeleteUser, Within;
    forall other: Tables | Remainder(t, other, lacks)
      ensures Within(other, after)
    {
      NothingOfTheUserStays(t, username, other);
    }
    assert Largest(t, after, lacks);
    if Largest(t, part, lacks) {
      LargestIsUnique(t, part, after, lacks);
    }
  }

  lemma NothingOfTheGroupStays(t: Tables, group: string, kept: Tables)
    requires Valid(t) && group in t.groups
    ensures var after := DeleteGroup(t, group).tables;
            && Remainder(t, after, LacksGroup(group))
            && (Remainder(t, kept, LacksGroup(group)) ==> Within(kept, after))
  {
    hide KeyedUsers, UniqueIds, UniqueEmails, UniqueExternalIds, OwnedCredentials, OwnedPrincipals, KeyedPolicies;
  }

  lemma DeleteGroupIsMinimal(t: Tables, group: string, part: Tables)
    requires Valid(t) && group in t.groups
    ensures Largest(t, part, LacksGroup(group)) <==> part == DeleteGroup(t, group).tables
  {
    hide Valid, DeleteGroup, Within, LacksGroup, Remainder;
    var after, lacks := DeleteGroup(t, group).tables, LacksGroup(group);
    forall other: Tables
      ensures Remainder(t, after, lacks) && (Remainder(t, other, lacks) ==> Within(other, after))
    {
      NothingOfTheGroupStays(t, group, other);
    }
    assert Largest(t, after, lacks);
    if Largest(t, part, lacks) {
      LargestIsUnique(t, part, after, lacks);
    }
  }

  lemma NothingOfThePolicyStays(t: Tables, name: string, kept: Tables)
    requires Valid(t) && name in t.policies
    ensures var after := DeletePolicy(t, name).tables;
            && Remainder(t, after, LacksPolicy(name))
            && (Remainder(t, kept, LacksPolicy(name)) ==> Within(kept, after))
  {
    hide KeyedUsers, UniqueIds, UniqueEmails, UniqueExternalIds, OwnedCredentials, OwnedPrincipals, KeyedGroups;
  }

  lemma DeletePolicyIsMinimal(t: Tables, name: string, part: Tables)
    requires Valid(t) && name in t.policies
    ensures Largest(t, part, LacksPolicy(name)) <==> part == DeletePolicy(t, name).tables
  {
    hide Valid, DeletePolicy, Within, LacksPolicy, Remainder;
    var after, lacks := DeletePolicy(t, name).tables, LacksPolicy(name);
    forall other: Tables
      ensures Remainder(t, after, lacks) && (Remainder(t, other, lacks) ==> Within(other, after))
    {
      NothingOfThePolicyStays(t, name, other);
    }
    assert Largest(t, after, lacks);
    if Largest(t, part, lacks) {
      LargestIsUnique(t, part, after, lacks);
    }
  }

  // ---------------------------------------------------------------------
  // A remove right after an insert restores every table
  // ---------------------------------------------------------------------

  lemma DeleteGroupUndoesCreate(t: Tables, group: GroupRecord)
    requires Valid(t) && InsertGroup(t, group).result.Ok?
    ensures DeleteGroup(InsertGroup(t, group).tables, group.id) == Reply(t, Ok(()))
  {
    hide KeyedUsers, UniqueIds, UniqueEmails, UniqueExternalIds;
    var after := DeleteGroup(InsertGroup(t, group).tables, group.id).tables;
    assert after.groups == t.groups;
    assert after.groupMembers == t.groupMembers;
    assert after.groupPolicies == t.groupPolicies;
  }

  lemma DeletePolicyUndoesCreate(t: Tables, policy: PolicyRecord)
    requires Valid(t) && InsertPolicy(t, policy).result.Ok?
    ensures DeletePolicy(InsertPolicy(t, policy).tables, policy.name) == Reply(t, Ok(()))
  {
    hide KeyedUsers, UniqueIds, UniqueEmails, UniqueExternalIds;
    var after := DeletePolicy(InsertPolicy(t, policy).tables, policy.name).tables;
    assert after.policies == t.policies;
    assert after.userPolicies == t.userPolicies;
    assert after.groupPolicies == t.groupPolicies;
  }

  /** A membership or an attachment that was new is taken back; one that was there
      before is lost, because the insert is silent about it. */
  lemma RemoveUndoesAdd(t: Tables, group: string, username: string, policy: string)
    ensures AddMembership(t, group, username).result.Ok? ==>
              RemoveMembership(AddMembership(t, group, username).tables, group, username) ==
              Reply(t.(groupMembers := t.groupMembers - {(group, username)}), Ok(()))
    ensures AttachToUser(t, username, policy).result.Ok? ==>
              DetachFromUser(AttachToUser(t, username, policy).tables, username, policy) ==
              Reply(t.(userPolicies := t.userPolicies - {(username, policy)}), Ok(()))
    ensures AttachToGroup(t, group, policy).result.Ok? ==>
              DetachFromGroup(AttachToGroup(t, group, policy).tables, group, policy) ==
              Reply(t.(groupPolicies := t.groupPolicies - {(group, policy)}), Ok(()))
  {
    assert t.groupMembers + {(group, username)} - {(group, username)} == t.groupMembers - {(group, username)};
    assert t.userPolicies + {(username, policy)} - {(username, policy)} == t.userPolicies - {(username, policy)};
    assert t.groupPolicies + {(group, policy)} - {(group, policy)} == t.groupPolicies - {(group, policy)};
  }

  /** Credentials and external principals are removed by their owner, and only by
      their owner. */
  lemma OwnerRemovesInsert(t: Tables, credential: NewCredential, username: string, id: string, other: string)
    ensures InsertCredential(t, credential).result.Ok? ==>
              DeleteCredential(InsertCredential(t, credential).tables, other, credential.accessKeyId) ==
              if other == credential.username then Reply(t, Ok(()))
              else Reply(InsertCredential(t, credential).tables, Err(NotFound("credentials", credential.accessKeyId)))
    ensures InsertExternalPrincipal(t, username, id).result.Ok? ==>
              DeleteExternalPrincipal(InsertExternalPrincipal(t, username, id).tables, other, id) ==
              if other == username then Reply(t, Ok(()))
              else Reply(InsertExternalPrincipal(t, username, id).tables, Err(NotFound("external principal", id)))
  {
    if InsertCredential(t, credential).result.Ok? {
      assert InsertCredential(t, credential).tables.credentials - {credential.accessKeyId} == t.credentials;
    }
    if InsertExternalPrincipal(t, username, id).result.Ok? {
      assert InsertExternalPrincipal(t, username, id).tables.externalPrincipals - {id} == t.externalPrincipals;
    }
  }
}
