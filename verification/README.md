# Verification of the lakeFS authorization and login servers

This Dafny project models three parts of the repository and proves what they promise.

* **The relational store and its paging.** Nine tables with cascades, three unique keys
  on users and an identity counter; the in-memory store as a class that is updated in
  place; a bootstrap plan run as one transaction; keyset pages, the walk of a client over
  them, and the PostgreSQL lists as queries that must give the same pages.
* **The session cookie.** A Go gob stream of two nested messages inside a gorilla
  envelope: base64url twice, `|` separators, and a raw MAC that may itself hold a `|`.
* **Protocols under failure.** Provisioning a user with retries and a compensating
  delete, run against the store model; and the serialised, rate-limited refresh of the
  signing keys with many callers and a background loop.

There is also the `key=value,key=value` parser, whose values may hold commas.

Code that changes state is modelled by classes and methods (`MemStores`, `CursorWalks`,
`GobCodec`, `SecureCookie.CookieCodec`, `Provision`, `Retry`), each proved equal to a
function on values; what the program promises is proved about these functions. Run
`dafny verify dfyconfig.toml` to check everything.

| file | what it holds |
|---|---|
| `Wrappers`, `Bytes`, `Text`, `Keys` | options and results, bytes and UTF-8, trimming and entity ids, the key order |
| `Pagination`, `CursorWalk`, `Like` | pages, walks over pages, the `LIKE` prefix pattern |
| `Types`, `Tables`, `MemStore`, `Bootstrap` | the records, the tables as a value, the store in place, the plan |
| `Effects`, `Plans`, `Runs`, `StoreRuns` | each operation column by column, when a plan succeeds, the invariant over every run, runs of the store object |
| `Cascades`, `Lists` | what deletes remove, the lists of both stores |
| `Gob`, `GobCodec`, `GobTheorems`, `GobWire` | wire forms and readers, the codec as it runs, its theorems, the bytes |
| `Base64`, `SecureCookie`, `Session` | the two layers of the envelope and the login cookie |
| `Service`, `Provision`, `Retry` | creates that may be replayed, provisioning, retries |
| `KeyRefresh`, `KeyValues` | the signing-key refresh, the map parser |

One promise of the code's own comments does not hold as written, and one documented
precondition matters more than its comment says. The model states exactly when:

* *At most one key fetch per hold.* A caller that the request timeout drops while it
  fetches (`crates/lakefs-authn/src/routes/mod.rs:52`) writes no record, so the next
  caller fetches at once. `KeyRefresh.CancellationBreaksRate` gives a run with any number
  of starts at one instant. `KeyRefresh.RateHoldsExactly` says when the rate does hold:
  if and only if nobody starts a fetch within the short hold after the start of a dropped
  one.
* *A user that is reported as created was created.* `create_user_with_groups` is
  documented for a caller that already looked the identity up. Without that lookup a
  stored user is reported as created if and only if the server takes the create for a
  replay: the name is taken by a row with every value the request gives. It then joins
  the groups, and when a group has an unusable name the user that was there before is
  deleted (`Provision.CreateUserWithGroups`). `Provision.ProvisionedIsReplayed` says which
  provisioned users this concerns; `ensure_user` looks first and keeps the promise
  (`Provision.EnsureUser`).

## Model

| member | source | states |
|---|---|---|
| Pagination.Normalize | crates/lakefs-auth-core/src/pagination.rs:43-54 | The limit is between 1 and 1000 for every input: 100 without an amount, the amount when it is in range, 1000 otherwise |
| Pagination.PageOfTable | crates/lakefs-auth-core/src/pagination.rs:166-180 | A page is the first `limit` matching rows in key order, and carries the last of their keys exactly when more rows match |
| Pagination.WirePage | crates/lakefs-auth-core/src/pagination.rs:95-110 | On the wire: the first matching items, a cursor that is the key of the last one exactly when more match, and `has_more` that says the same as the cursor |
| Keys.BelowIsLexicographic | crates/lakefs-auth-core/src/pagination.rs:166-180 | The key order: a proper prefix first, else the smaller character where two keys first differ |
| Pagination.MatchingAfterCursor | crates/lakefs-auth-core/src/pagination.rs:66-90 | The query from a page's cursor selects exactly the rest of the listing |
| Pagination.WalkUnderMutation | crates/lakefs-auth-core/src/pagination.rs:66-110 | Whatever happens to the table between page reads, a finished walk returns strictly increasing keys, no key twice, only rows that were read, and every non-empty matching key that was present at every read |
| Pagination.WalkWithoutMutation | crates/lakefs-auth-core/src/pagination.rs:66-110 | On an unchanged table the pages concatenate to the filtered listing, which holds exactly the rows with the prefix |
| CursorWalks.CursorWalk.Advance | crates/lakefs-auth-core/src/pagination.rs:146-162 | The verdict on a cursor (done, repeated, too many pages, go on) and the new state of the walk; going on leaves pages below the bound |
| CursorWalks.CollectPages | crates/lakefs-authz-client/src/lib.rs:258-274 | Against any server, whose requests may fail, the walk ends after at most `maxPages` requests with the pages it read, the first cursor error, or the failure of its last request |
| CursorWalks.CollectedFrom | crates/lakefs-auth-core/src/pagination.rs:132-163 | From any cursor and page count, against a server that pages a fixed table: the rest of the listing when it fits into the remaining pages, else "too many pages" |
| CursorWalks.CollectIsExact | crates/lakefs-auth-core/src/pagination.rs:132-163 | Against such a server the cursor never repeats, and the walk returns the complete listing if and only if it has at most `maxPages * limit` rows |
| CursorWalks.CollectUnderMutation | crates/lakefs-authz-client/src/lib.rs:258-274 | Against a server whose table changes between the requests the client never reports a repeated cursor; a result is a walk over the tables its requests read: increasing keys, only rows that were read, every matching key that was always present. Otherwise a request failed or the listing is too long |
| Like.EscapeLikePrefix | crates/lakefs-auth-core/src/pagination.rs:183-192 | The loop computes the escaped prefix |
| Like.LikeIsStartsWith | crates/lakefs-authz/src/store/pg/mod.rs:75-78 | For all texts and prefixes the text matches the pattern under SQL `LIKE` if and only if it starts with the prefix, and the pattern has no dangling escape |
| MemStores.Inner.InsertUser | crates/lakefs-authz/src/store/mem.rs:90-120 | Inserts under the next id, or refuses a taken username, email or external id in that order; keeps the invariant |
| MemStores.Inner.InsertGroup | crates/lakefs-authz/src/store/mem.rs:122-133 | The new state of an insert or its conflict |
| MemStores.Inner.InsertPolicy | crates/lakefs-authz/src/store/mem.rs:135-147 | The new state of an insert or its conflict |
| MemStores.Inner.InsertCredential | crates/lakefs-authz/src/store/mem.rs:149-167 | The new credential carries its owner's current id; a missing owner and a taken key are refused |
| MemStores.Inner.CascadeDeleteUser | crates/lakefs-authz/src/store/mem.rs:170-175 | Four tables lose the rows of the user, nothing else changes |
| MemStores.Inner.CascadeDeleteGroup | crates/lakefs-authz/src/store/mem.rs:177-180 | Memberships and attachments of the group go |
| MemStores.Inner.CascadeDeletePolicy | crates/lakefs-authz/src/store/mem.rs:182-185 | Attachments of the policy go |
| MemStores.MemStore.CreateUser | crates/lakefs-authz/src/store/mem.rs:204-206 | The store step `Tables.InsertUser` |
| MemStores.MemStore.FindUserByEmail | crates/lakefs-authz/src/store/mem.rs:220-227 | Finds a user with the email if and only if one exists |
| MemStores.MemStore.FindUserByExternalId | crates/lakefs-authz/src/store/mem.rs:229-236 | Finds a user with the external id if and only if one exists |
| MemStores.MemStore.DeleteUser | crates/lakefs-authz/src/store/mem.rs:238-245 | Removes the row and cascades, or answers not found and changes nothing |
| MemStores.MemStore.SetFriendlyName | crates/lakefs-authz/src/store/mem.rs:252-260 | Changes one column of one row, or answers not found |
| MemStores.MemStore.CreateGroup | crates/lakefs-authz/src/store/mem.rs:265-267 | The store step `Tables.InsertGroup` |
| MemStores.MemStore.DeleteGroup | crates/lakefs-authz/src/store/mem.rs:277-284 | Removes the row and cascades, or answers not found |
| MemStores.MemStore.CreatePolicy | crates/lakefs-authz/src/store/mem.rs:294-296 | The store step `Tables.InsertPolicy` |
| MemStores.MemStore.UpdatePolicy | crates/lakefs-authz/src/store/mem.rs:306-316 | Replaces date, statements and ACL of a stored policy, or answers not found |
| MemStores.MemStore.DeletePolicy | crates/lakefs-authz/src/store/mem.rs:318-325 | Removes the row and cascades, or answers not found |
| MemStores.MemStore.AddMembership | crates/lakefs-authz/src/store/mem.rs:335-341 | Adds the row once when group and user exist; the group is checked first |
| MemStores.MemStore.RemoveMembership | crates/lakefs-authz/src/store/mem.rs:343-349 | Removes the row, or answers not found |
| MemStores.MemStore.AttachPolicyToUser | crates/lakefs-authz/src/store/mem.rs:376-382 | Adds the row once when user and policy exist |
| MemStores.MemStore.DetachPolicyFromUser | crates/lakefs-authz/src/store/mem.rs:384-390 | Removes the row, or answers not found |
| MemStores.MemStore.AttachPolicyToGroup | crates/lakefs-authz/src/store/mem.rs:433-439 | Adds the row once when group and policy exist |
| MemStores.MemStore.DetachPolicyFromGroup | crates/lakefs-authz/src/store/mem.rs:441-447 | Removes the row, or answers not found |
| MemStores.MemStore.CreateCredential | crates/lakefs-authz/src/store/mem.rs:463-465 | The store step `Tables.InsertCredential` |
| MemStores.MemStore.DeleteCredential | crates/lakefs-authz/src/store/mem.rs:484-495 | Removes the key only for its owner |
| MemStores.MemStore.CreateExternalPrincipal | crates/lakefs-authz/src/store/mem.rs:511-525 | Adds a principal of an existing user under a free id |
| MemStores.MemStore.DeleteExternalPrincipal | crates/lakefs-authz/src/store/mem.rs:527-538 | Removes the principal only for its owner |
| MemStores.MemStore.ClaimTokenId | crates/lakefs-authz/src/store/mem.rs:566-573 | Claims a token id once |
| MemStores.MemStore.DeleteExpiredTokenIds | crates/lakefs-authz/src/store/mem.rs:575-580 | Keeps exactly the ids that expire later and answers how many went |
| Effects.ClaimIsHeld | crates/lakefs-authz/src/store/mem.rs:566-580 | Over every run a claimed token id is refused until a cleanup at or after its expiry, and can be claimed again from then on |
| Effects.UpdatePolicyEffect | crates/lakefs-authz/src/store/mem.rs:306-316 | Exactly for a stored name the stored row and the answer become the given policy; no other row or table moves |
| Effects.SetFriendlyNameEffect | crates/lakefs-authz/src/store/mem.rs:252-260 | Exactly for a stored name that one column of that one row changes |
| Effects.InsertUserEffect | crates/lakefs-authz/src/store/mem.rs:90-120 | Which of the three refusals applies, and else the new row column by column |
| Tables.InsertUserKeepsValid | crates/lakefs-authz/src/store/mem.rs:90-120 | An insert keeps the whole invariant: references, unique ids, emails and external ids, credential ids |
| Tables.DeleteUserKeepsValid | crates/lakefs-authz/src/store/mem.rs:238-245 | A delete with its cascade keeps the whole invariant |
| Runs.RunKeepsInvariant | crates/lakefs-authz/src/store/mem.rs:202-661 | The invariant holds over every run of all 21 operations, and every user of the later state was created since under a new id or is the same user as before |
| Runs.ReachableIsValid | crates/lakefs-authz/src/store/mem.rs:23-42 | Every state reachable from the empty store satisfies the invariant |
| StoreRuns.PerformAll | crates/lakefs-authz/src/store/mem.rs:202-606 | Any operations performed on a new store object leave the state of the run, and it is valid |
| Runs.IdsAreNeverReused | crates/lakefs-authz/src/store/mem.rs:107-120 | An issued id that is free stays free over every run; equal ids at different times mean the same user |
| Runs.InsertedUserIsClean | crates/lakefs-authz/src/store/mem.rs:90-120 | A user just inserted into a valid store has no dependent row and an id no credential carries |
| Runs.RecreatedUserStartsClean | crates/lakefs-authz/src/store/mem.rs:170-175 | A user deleted and created again, any run later, has no dependent rows and an id larger than any id before; the old id is not in use |
| Runs.DeleteUndoesCreate | crates/lakefs-authz/src/store/mem.rs:238-245 | A delete right after a create restores every table, only the counter moved |
| Cascades.DeleteUserIsMinimal | crates/lakefs-authz/src/store/mem.rs:170-175 | A state is the largest valid part of the store without the user if and only if it is the result of the delete: the cascade takes everything the references demand and no other row |
| Cascades.DeleteGroupIsMinimal | crates/lakefs-authz/src/store/mem.rs:177-180 | The same for a group |
| Cascades.DeletePolicyIsMinimal | crates/lakefs-authz/src/store/mem.rs:182-185 | The same for a policy |
| Cascades.DeleteGroupUndoesCreate | crates/lakefs-authz/src/store/mem.rs:277-284 | Deleting a group just created restores the store |
| Cascades.DeletePolicyUndoesCreate | crates/lakefs-authz/src/store/mem.rs:318-325 | Deleting a policy just created restores the store |
| MemStores.Inner.InsertPolicyIfMissing | crates/lakefs-authz/src/store/mem.rs:609-615 | Creates the row when it is missing and says whether it did |
| MemStores.Inner.InsertGroupIfMissing | crates/lakefs-authz/src/store/mem.rs:617-623 | Creates the row when it is missing and says whether it did |
| MemStores.Inner.InsertUserIfMissing | crates/lakefs-authz/src/store/mem.rs:625-631 | Answers the stored row, or creates the user under the insert rules |
| MemStores.Inner.InsertMembershipIfMissing | crates/lakefs-authz/src/store/mem.rs:633-637 | Adds the row when both ends exist and says whether it was new |
| MemStores.Inner.InsertUserPolicyIfMissing | crates/lakefs-authz/src/store/mem.rs:639-643 | Adds the row when both ends exist and says whether it was new |
| MemStores.Inner.InsertGroupPolicyIfMissing | crates/lakefs-authz/src/store/mem.rs:645-649 | Adds the row when both ends exist and says whether it was new |
| MemStores.Inner.InsertCredentialIfMissing | crates/lakefs-authz/src/store/mem.rs:651-660 | Answers the stored row, or creates the credential under the insert rules |
| MemStores.ApplyPlan | crates/lakefs-authz/src/store/bootstrap.rs:41-87 | The seven loops run the entries in order; tables, counters and the first error are those of the sequential run |
| MemStores.MemStore.ApplyBootstrap | crates/lakefs-authz/src/store/mem.rs:595-605 | A failed plan leaves the store as it was; a successful one swaps in a state that extends the old one; the invariant is kept |
| Bootstrap.WriteIsSound | crates/lakefs-authz/src/store/mem.rs:608-661 | An entry that does not fail keeps every old row, is satisfied afterwards, adds only rows it describes, keeps the invariant, and changes nothing when it reports "not created" |
| Bootstrap.SatisfiedIsSkipped | crates/lakefs-authz/src/store/bootstrap.rs:41-87 | A satisfied entry is skipped and changes nothing |
| Bootstrap.BootstrapIsAdditive | crates/lakefs-authz/src/store/bootstrap.rs:34-87 | A successful plan keeps every old row unchanged, satisfies every entry, adds only described rows, and keeps the invariant |
| Bootstrap.BootstrapConserves | crates/lakefs-authz/src/store/bootstrap.rs:41-95 | Per kind, created plus skipped is the plan's count, and the tables grow by exactly what was created |
| Bootstrap.BootstrapIsIdempotent | crates/lakefs-authz/src/store/bootstrap.rs:41-87 | A second run of a plan that succeeded succeeds, changes nothing, creates nothing, and skips exactly the plan's count per kind, repeated entries included |
| Plans.BootstrapSucceeds | crates/lakefs-authz/src/store/bootstrap.rs:41-87 | A plan succeeds if and only if every entry fits behind the entries before it, said of the old tables and those entries |
| Plans.BootstrapSucceedsExactly | crates/lakefs-authz/src/store/bootstrap.rs:41-87 | The same list by list: policies and groups always fit; users are the stored identity and the one listed before, or new with a free email and external id; links have their ends in the store or the plan; keys belong to their users, known when the key is new |
| Lists.SqlPageIsPageSorted | crates/lakefs-authz/src/store/pg/mod.rs:126-148 | The filtered, ordered and limited query on a relation is the in-memory page of it |
| Lists.OwnedPageAgrees | crates/lakefs-authz/src/store/pg/mod.rs:149-167 | Looking the owner up only for an empty page cannot be told from looking it up first, when only an existing owner has rows |
| Lists.GroupMembersAgree | crates/lakefs-authz/src/store/pg/sql.rs:67-73 | On every valid state and for every query both stores give the same page or the same 404 |
| Lists.UserGroupsAgree | crates/lakefs-authz/src/store/pg/sql.rs:75-80 | The same for the groups of a user |
| Lists.UserPoliciesAgree | crates/lakefs-authz/src/store/pg/sql.rs:87-92 | The same for the policies of a user |
| Lists.GroupPoliciesAgree | crates/lakefs-authz/src/store/pg/sql.rs:116-121 | The same for the policies of a group |
| Lists.KeyListsAgree | crates/lakefs-authz/src/store/pg/sql.rs:140-157 | The same for credentials, whose user id PostgreSQL takes from the joined user row, and for external principals |
| Lists.EffectivePoliciesAgree | crates/lakefs-authz/src/store/pg/sql.rs:98-109 | The `UNION` query gives the page of the two-set union; the listing is sorted, without duplicates, and holds exactly the direct policies and those of the user's groups |
| Lists.OwnerCheckNeedsInvariant | crates/lakefs-authz/src/store/pg/mod.rs:149-167 | With a dangling membership the two forms would differ: the late owner check rests on the invariant |
| GobCodec.EncodeUint | crates/lakefs-authn/src/lakefs/gob.rs:137-147 | Appends the shortest form: stripping leading zero bytes of the eight-byte form gives exactly the significant bytes |
| GobCodec.EncodeInt | crates/lakefs-authn/src/lakefs/gob.rs:149-156 | Appends the zigzag form |
| GobCodec.EncodeInterfaceString | crates/lakefs-authn/src/lakefs/gob.rs:121-128 | Appends a string with its type name, type id and length-prefixed inner message |
| GobCodec.EncodeTypeDefinition | crates/lakefs-authn/src/lakefs/gob.rs:85-106 | Builds the body of the type definition message |
| GobCodec.EncodeMapValue | crates/lakefs-authn/src/lakefs/gob.rs:108-119 | Builds the body of the value message for any list of entries |
| GobCodec.EncodeTokenMap | crates/lakefs-authn/src/lakefs/gob.rs:55-60 | The stream of a token decodes to the token |
| GobCodec.Cursor.Take | crates/lakefs-authn/src/lakefs/gob.rs:176-183 | Takes exactly `count` bytes, or answers `Truncated` and leaves the cursor |
| GobCodec.Cursor.NextUint | crates/lakefs-authn/src/lakefs/gob.rs:185-200 | Reads an integer of at most eight bytes, with the errors of the reader function |
| GobCodec.Cursor.NextString | crates/lakefs-authn/src/lakefs/gob.rs:211-215 | Reads a length-prefixed UTF-8 string |
| GobCodec.DecodeTypeDefinition | crates/lakefs-authn/src/lakefs/gob.rs:231-274 | Strictly reads the type definition: the error order, both type ids, both name forms, the wrapping negation |
| GobCodec.DecodeMapValue | crates/lakefs-authn/src/lakefs/gob.rs:276-293 | The loop over the declared count reads the entries or fails as the reader function does |
| GobCodec.NextInterfaceString | crates/lakefs-authn/src/lakefs/gob.rs:295-311 | Reads one string out of its interface value |
| GobCodec.DecodeStringEntries | crates/lakefs-authn/src/lakefs/gob.rs:73-83 | The whole two-message decoder |
| GobCodec.DecodeToken | crates/lakefs-authn/src/lakefs/gob.rs:63-70 | The value of the first entry with the token key |
| Gob.UintRoundTrip | crates/lakefs-authn/src/lakefs/gob.rs:137-200 | Every u64 is read back, with any bytes behind it |
| Gob.IntRoundTrip | crates/lakefs-authn/src/lakefs/gob.rs:149-209 | Every i64 is read back, with any bytes behind it |
| GobTheorems.TypeDefinitionRoundTrip | crates/lakefs-authn/src/lakefs/gob.rs:231-274 | Either type id, with or without the type's name, is read back |
| GobTheorems.StreamRoundTrip | crates/lakefs-authn/src/lakefs/gob.rs:73-119 | For any list of string pairs, either type id and either name form, decoding the stream gives back the list |
| GobTheorems.TokenMapRoundTrip | crates/lakefs-authn/src/lakefs/gob.rs:55-70 | Every token is read back from its session map |
| GobTheorems.FramingIsExact | crates/lakefs-authn/src/lakefs/gob.rs:73-83 | For every accepted stream, every strict prefix is `Truncated` and every non-empty extension `TrailingBytes` |
| GobTheorems.EncodedFramingIsExact | crates/lakefs-authn/src/lakefs/gob.rs:73-119 | The same for whatever the encoder writes |
| GobTheorems.DecodingIsLinear | crates/lakefs-authn/src/lakefs/gob.rs:276-293 | An accepted stream is longer than 22 bytes per entry plus all key and value bytes |
| GobTheorems.TokenMapSize | crates/lakefs-authn/src/lakefs/gob.rs:108-135 | The closed form of the stream's length; token plus 52 bytes from 256 bytes on |
| GobWire.TokenStreamIsLiteral | crates/lakefs-authn/src/lakefs/gob.rs:55-60 | The bytes of every login stream: a fixed first message, and a second in which only the token and three length prefixes vary |
| GobWire.DefinitionsAreLiteral | crates/lakefs-authn/src/lakefs/gob.rs:85-106 | The bytes of the type definition for both ids, with and without the name |
| GobWire.UintByValue | crates/lakefs-authn/src/lakefs/gob.rs:137-147 | One byte below 128; else 256 minus the count, then the bytes of the value, most significant first and without leading zeros |
| GobWire.IntByValue | crates/lakefs-authn/src/lakefs/gob.rs:149-156 | A non-negative number is sent doubled, a negative one as the odd number below its double, and read back so only |
| GobWire.DefinitionIsStrict | crates/lakefs-authn/src/lakefs/gob.rs:231-242 | A definition is accepted if and only if it announces 64 or 65 in the fields of a map type and its name and rest are accepted |
| GobWire.NameIsStrict | crates/lakefs-authn/src/lakefs/gob.rs:243-255 | The name is left out or is the one name of the map type |
| GobWire.RestIsStrict | crates/lakefs-authn/src/lakefs/gob.rs:256-274 | The rest is accepted in exactly one sequence of integers |
| GobWire.InterfaceStringIsStrict | crates/lakefs-authn/src/lakefs/gob.rs:295-311 | A string value is accepted if and only if it is the name `string`, the id 6, and one message with a zero and the text |
| GobWire.MapValueIsStrict | crates/lakefs-authn/src/lakefs/gob.rs:276-293 | A value is accepted if and only if it is the type id, a zero, the count, and exactly that many pairs |
| GobWire.FirstTokenIsRead | crates/lakefs-authn/src/lakefs/gob.rs:63-70 | The token is the value of the first entry under its key; without one the map is refused |
| Base64.RoundTrip | crates/lakefs-authn/src/lakefs/securecookie.rs:83-97 | Every byte string is read back, section 5 of RFC 4648 |
| Base64.DecodeIsCanonical | crates/lakefs-authn/src/lakefs/securecookie.rs:107-107 | The strict decoder accepts only what the encoder writes |
| Base64.EncodedLength | crates/lakefs-authn/src/lakefs/securecookie.rs:83-97 | Four symbols per three bytes, rounded up |
| Base64.GroupSpellsBits | crates/lakefs-authn/src/lakefs/securecookie.rs:83-97 | The symbols of a group spell the bits of its bytes, most significant first, with zero bits and padding for what is missing |
| SecureCookie.CookieCodec.EncodeAt | crates/lakefs-authn/src/lakefs/securecookie.rs:83-97 | The buffers built step by step give the sealed payload, or `TooLong` |
| SecureCookie.CookieCodec.DecodeAt | crates/lakefs-authn/src/lakefs/securecookie.rs:103-132 | The checks in order and their errors |
| SecureCookie.EnvelopeRoundTrip | crates/lakefs-authn/src/lakefs/securecookie.rs:83-132 | An accepted seal opens to its value exactly when the age check is off or passes, for every MAC, even one that holds the separator |
| SecureCookie.SealedDecodes | crates/lakefs-authn/src/lakefs/securecookie.rs:103-132 | A sealed value under any timestamp text without a separator: the value, `BadTimestamp` or `Expired` |
| SecureCookie.FreshIsRecent | crates/lakefs-authn/src/lakefs/securecookie.rs:127-130 | Away from overflow the age check is `timestamp >= now - max_age` |
| SecureCookie.AcceptsOnlySealed | crates/lakefs-authn/src/lakefs/securecookie.rs:103-132 | The decoder answers a value if and only if the cookie is that value's seal under a fresh timestamp text and not too long |
| SecureCookie.SealedLayout | crates/lakefs-authn/src/lakefs/securecookie.rs:83-97 | The bytes behind the outer base64: decimal timestamp, a separator, base64 of the value, a separator, and 32 bytes of MAC over the name, the timestamp and the value |
| SecureCookie.RefusalsInOrder | crates/lakefs-authn/src/lakefs/securecookie.rs:103-126 | Too long, not base64, fewer than two separators, a wrong MAC: which error each gives, in this order |
| SecureCookie.SignedIsInjective | crates/lakefs-authn/src/lakefs/securecookie.rs:83-97 | Different (name, timestamp, value) triples never share a signed message, even when a name holds the separator |
| SecureCookie.DecimalRoundTrip | crates/lakefs-authn/src/lakefs/securecookie.rs:121-124 | Every i64 timestamp printed in decimal parses back and holds no separator |
| Session.Login | crates/lakefs-authn/src/lakefs/session.rs:63-72 | The cookie value is the sealed session map of the token |
| Session.Read | crates/lakefs-authn/src/lakefs/session.rs:86-89 | Opening the envelope, then the gob, with the error of the layer that failed |
| Session.LoginReadsBack | crates/lakefs-authn/src/lakefs/session.rs:63-89 | Every successful login reads back to the same token while it is fresh, and is `Expired` afterwards |
| Session.LoginBound | crates/lakefs-authn/src/lakefs/session.rs:63-72 | With the 4096 limit and a ten-digit timestamp, login succeeds if and only if the token has at most 2219 bytes |
| Session.LoginLayout | crates/lakefs-authn/src/lakefs/session.rs:63-72 | The layout of a login cookie, signed under its name |
| Session.LoginExpires | crates/lakefs-authn/src/lakefs/session.rs:63-89 | A default login reads back as long as at most 2592000 seconds have passed, and is `Expired` afterwards |
| Service.CanonicalStatements | crates/lakefs-authz/src/service.rs:212-223 | The loop and the sorts give the ordered listing of canonical texts |
| Service.SameSortSameElements | crates/lakefs-authz/src/service.rs:212-223 | Two sorted listings are equal if and only if the multisets are |
| Service.PolicyComparison | crates/lakefs-authz/src/service.rs:205-223 | Comparing canonical statements is comparing the multisets of (effect, resource, multiset of actions, condition) |
| Service.ReplayedPolicyCreate | crates/lakefs-authz/src/service.rs:190-210 | A create of a stored name answers the stored row exactly when the statements agree in any order and a given ACL agrees, else it conflicts; either way nothing changes |
| Service.CreatedUserIsRequested | crates/lakefs-authz/src/service.rs:128-152 | A create of a free name stores the columns of the request, optional text trimmed |
| Provision.Remote.FindByExternalId | crates/lakefs-authz-client/src/lib.rs:192-216 | A blank value is never sent; "none" means no row has the identity |
| Provision.Remote.FindByEmail | crates/lakefs-authz-client/src/lib.rs:197-216 | A blank value is never sent; "none" means no row has the email |
| Provision.Remote.Create | crates/lakefs-authz-client/src/lib.rs:219-222 | The answer of the service on the store; without an answer the create was executed once or not at all, and a create whose answer was lost is marked |
| Provision.Remote.AddToGroup | crates/lakefs-authz-client/src/lib.rs:248-252 | Sent with retries: a membership, "not found" for a missing end, or an unusable name that is never sent; without an answer the membership is there or not, and nothing else changed |
| Provision.Remote.Delete | crates/lakefs-authz-client/src/lib.rs:225-230 | Sent with retries: with an answer, 404 included, the store saw exactly one delete; without one, one delete or none |
| Provision.Remote.RollBack | crates/lakefs-authz-client/src/lib.rs:361-376 | Done means exactly one delete and the user is gone, also when the answer is a 404; not done means one delete or none, and happens only without an answer within the budget or for an unusable name |
| Provision.EmailHolder | crates/lakefs-authz-client/src/lib.rs:351-359 | Names a holder if and only if another identity holds the email |
| Provision.CreateRow | crates/lakefs-authz-client/src/lib.rs:302-335 | For a new identity: one new row with the columns of the spec, shown in full by the answer, without the email exactly when another identity holds it; a conflict that remains means the username is taken; an error changes nothing unless the answer to the create was lost. For a stored identity: nothing changes, and it is reported as created if and only if the create is a replay |
| Provision.JoinGroups | crates/lakefs-authz-client/src/lib.rs:336-348 | Joins exactly the groups that exist; any other failure deletes the user, whether this login made the row or not, together with a membership that was executed without an answer; when the delete is lost, some of the groups remain |
| Provision.CreateUserWithGroups | crates/lakefs-authz-client/src/lib.rs:302-348 | For an identity without a row, what `EnsureUser` promises. A row that was there is reported as created if and only if the create is a replay; with all requests answered a replay joins the groups, or, if and only if a group has an unusable name, deletes the user that was there |
| Provision.EnsureUser | crates/lakefs-authz-client/src/lib.rs:284-348 | For every fate of every attempt. Not created: nothing changed and the answer is the stored identity. Created: exactly one row, column by column as the spec gives it and as the answer shows it, in exactly the existing groups. Error: restored, unless the answer to the create or to the compensating delete was lost, and then at most the new row with some of its groups. No other row ever changes. With all requests answered and usable free names it succeeds |
| Provision.RollBackRestores | crates/lakefs-authz-client/src/lib.rs:361-376 | The compensating delete undoes the create and all its memberships |
| Provision.ProvisionedIsReplayed | crates/lakefs-authz-client/src/lib.rs:302-348 | A provisioned user is one whose repeated create is a replay if and only if it got its email |
| Provision.ProvisionedIsSpelled | crates/lakefs-authz-client/src/lib.rs:302-348 | The new row column by column, the answer that shows it, and its groups: those of the spec that exist |
| Retry.SendWithRetry | crates/lakefs-authz-client/src/lib.rs:401-434 | For every schedule: at most `maxRetries + 1` attempts, a POST executed at most once, the tables are those of the executions, which attempts were worth repeating, and an answer within the budget reaches the client |
| Retry.RepeatedPut | crates/lakefs-authz-client/src/lib.rs:248-252 | A membership PUT executed any number of times is one PUT, with the same answer |
| Retry.RepeatedDelete | crates/lakefs-authz-client/src/lib.rs:225-230 | A user DELETE executed any number of times is one DELETE; every execution after the first answers 404 |
| KeyRefresh.RunKeepsValid | crates/lakefs-authn/src/oidc/mod.rs:196-228 | The invariant of the lock, the record and the fetches holds over all interleavings |
| KeyRefresh.FetchesAreSpaced | crates/lakefs-authn/src/oidc/mod.rs:196-228 | A fetch starts only after the full hold since every recorded fetch before it ended, and fetches never overlap |
| KeyRefresh.RateIsLimited | crates/lakefs-authn/src/oidc/mod.rs:196-228 | With a positive hold h, in every run a window of length T holds at most 1 + T/h starts, plus one for every fetch in it whose caller was dropped |
| KeyRefresh.RateHoldsExactly | crates/lakefs-authn/src/oidc/mod.rs:186-228 | The bound 1 + T/h holds for all starts in every window of a run if and only if every fetch whose caller was dropped is followed by a wait of the short hold, counted from its start |
| KeyRefresh.RateWithoutCancellation | crates/lakefs-authn/src/oidc/mod.rs:186-228 | The special case of `RateHoldsExactly` in which no caller is dropped |
| KeyRefresh.CancellationBreaksRate | crates/lakefs-authn/src/oidc/mod.rs:196-228 | With dropped callers any number of fetches can start at one instant |
| KeyRefresh.CallersWithinHold | crates/lakefs-authn/src/oidc/mod.rs:198-210 | Callers that arrive within the hold after a success fetch nothing; each gets exactly one answer, and every answer is metadata |
| KeyRefresh.FetchersAreAnswered | crates/lakefs-authn/src/oidc/mod.rs:211-227 | Over every interleaving a fetch that ended with a record has exactly one answer, to its caller: metadata published since the fetch began after a success, nothing after a failure; a dropped or running one has none |
| KeyRefresh.ArrivalDecides | crates/lakefs-authn/src/oidc/mod.rs:196-210 | In every reachable state a caller that finds the lock free fetches if and only if there is no record, or the latest is as old as the interval after a success, the shorter of interval and cooldown after a failure; else it is answered at once, with metadata exactly after a success |
| KeyValues.Parse | crates/lakefs-authn/src/config.rs:43-77 | The loop with its current pair computes the parse, errors included |
| KeyValues.ParsedIsWellFormed | crates/lakefs-authn/src/config.rs:43-85 | Every parse result is well formed |
| KeyValues.PrintThenParse | crates/lakefs-authn/src/config.rs:43-85 | Printing any list of well-formed pairs with different keys and parsing it gives exactly these pairs, commas in values included |
| KeyValues.RoundTrip | crates/lakefs-authn/src/config.rs:43-85 | Parse undoes print on every well-formed map |
| KeyValues.ParsePrintParse | crates/lakefs-authn/src/config.rs:43-85 | Parse after print after parse is parse |
| KeyValues.AcceptedExactly | crates/lakefs-authn/src/config.rs:43-85 | A text is accepted if and only if its first item is a pair, no pair has a blank key or value, and no key is given twice |
| KeyValues.RefusalIsTrue | crates/lakefs-authn/src/config.rs:43-85 | A refused text has the defect that its error names |
| KeyValues.SplitOfJoined | crates/lakefs-auth-core/src/config.rs:52-59 | Splitting two texts joined by a comma gives the parts of both |
| Text.TrimIsTrimmed | crates/lakefs-auth-core/src/text.rs:11-14 | Trimming leaves no blank at either end, adds nothing, and leaves trimmed text alone |
| Text.TrimTakesBlanks | crates/lakefs-auth-core/src/text.rs:11-14 | Trimming takes the blanks at both ends and nothing else |
| Text.OptionalTextIsTrimmed | crates/lakefs-authz/src/store/types.rs:15-17 | Optional text is absent exactly when it is all blanks, and trimmed otherwise |

## Smaller facts

These follow from one definition or one step, and other results use some of them.

* `Cascades.RemoveUndoesAdd` (`crates/lakefs-authz/src/store/mem.rs:335-349`): removing a membership or an attachment just added leaves the table without that row, whether or not it was there before.
* `Cascades.OwnerRemovesInsert` (`crates/lakefs-authz/src/store/mem.rs:484-538`): credentials and principals just added are taken back by their owner and by nobody else.
* `KeyRefresh.ReadinessIsKept` (`crates/lakefs-authn/src/oidc/mod.rs:126-185`): readiness once gained is never lost, whatever callers and the background loop do.
* `Service.UserCreateSucceeds` (`crates/lakefs-authz/src/service.rs:128-166`): exactly when a create succeeds: no invitation, a usable name, and a new row that collides with nobody, or a stored row with every given value; a failure changes nothing.
* `Service.ReplayedUserCreate` (`crates/lakefs-authz/src/service.rs:43-65`): an answered create, replayed in any later state that still has the row, answers the stored row and changes nothing.
* `Effects` (`crates/lakefs-authz/src/store/mem.rs:122-582`): for every other insert, link, delete and cleanup, when it answers `Ok`, which error it gives otherwise, and the row it leaves.
* `Plans.WriteErrors` (`crates/lakefs-authz/src/store/bootstrap.rs:41-87`): which entries stop a plan with `WrongIdentity`.
* `Lists.KeyListsAreOwned` (`crates/lakefs-authz/src/store/mem.rs:497-561`): the key lists hold the owner's rows only.
* `Service.FreePolicyIsStored` (`crates/lakefs-authz/src/service.rs:190-203`): a create of a free usable name stores the request.
* `Retry.RepeatedAttempts` (`crates/lakefs-authz-client/src/lib.rs:405-434`): which attempts are repeated for which methods, listed.
* `KeyRefresh.CurrentIsLatest` (`crates/lakefs-authn/src/oidc/mod.rs:141-158`): what callers see is the latest publication.
* `Base64.AlphabetIsUrlSafe`, `Like.EscapesAreBackslashes`, `Text.SpacesAreListed`, `Text.IdsAreSegments`, `Session.CookieNameIsLiteral`, `SecureCookie.DigitsByValue`, `SecureCookie.TimestampsAreNumbers`, `GobWire.OtherIdsAreRefused`: characters, limits and names spelled out.

## Left out

- HTTP routing, handlers, middleware, metrics, tracing, command-line definitions and shutdown: wiring.
- HMAC, AES-GCM, HKDF, JWT and the OpenID Connect library: the MAC is an arbitrary function to 32 bytes, discovery succeeds or fails.
- Service.PolicyComparison: assumes that serialising a statement is injective; JSON, YAML and URL parsing are not modelled.
- The identity counter and the report counters do not overflow in the model; the program uses `i64` and `u32`.
- The PostgreSQL writes (inserts with `ON CONFLICT DO NOTHING`, the bootstrap transaction): only its lists are modelled, as maps keyed by the sort key, which is the primary key of the listed table. Ids that a rolled back or conflicting insert skips in PostgreSQL are not modelled either.
- A bootstrap that overlaps other writes: it is one step here. The program stages it without holding the lock and runs it before it takes requests (`crates/lakefs-authz/src/store/mem.rs:596-599`).
- Which missing reference an error names differs between the stores; the lists name one owner, so there the errors are equal in full.
- Point lookups that only read one map entry, the user lookup by id, and `ping`.
- Validation of statements and ARNs, and the merge of an absent ACL or date in `update_policy`.
- Provision.EnsureUser: sequential. Other logins or admin deletes in between are not modelled; the client does not compensate for them.
- The service answers with its own statuses (200, 201, 204, 400, 404, 409); something in front of it that answers in its place with one of these is not modelled.
- `Provision.Remote.FindByExternalId` and `FindByEmail` answer at most one row, which the unique keys guarantee; the error for several rows is modelled but not reachable.
- Delays between retries, and the bearer token of each attempt.
- The freshness of published provider metadata, which the background loop replaces without the refresh lock, and the loop's own backoff. The refresh is a state machine over steps of any interleaving rather than code with locks.
- Cookie attributes (path, domain, lifetime, `Secure`), the flow and ID-token cookies, and the clock.
- The memory reserved for a declared entry count in the gob decoder: only a hint. Lengths are those of a 64-bit platform, so a length never fails to fit into `usize`, and overflow wraps as in a release build (the negated type id, `now - max_age`).
- Gob forms the decoder accepts but the encoder never writes, such as integers with leading zero bytes: covered by `GobTheorems.FramingIsExact` and `DecodingIsLinear`, not by a round trip.
- `KeyValues.ParseError` carries the offending item instead of a message.
