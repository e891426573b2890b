# simple-ldapd: a verified model

simple-ldapd is a single-host LDAPv3 directory server. This project models its logic in Dafny and proves what
the parts promise, alone and together:

- **the wire**: BER elements, the filter codec, all LDAP messages, and the framing of a byte stream;
- **filters**: the string parser, matching, and the greedy substring scan;
- **the directory**: DN algebra, attribute modification, access control, schema validation, and the handlers for
  bind, search, add, modify, delete, modify DN and password modify over the in-memory backend;
- **implementations that must agree with something simpler**: SQLite tables and the in-memory map, LDIF text and the
  map, the pruned rate limiter and an unpruned one, the class worklist and reachability;
- **authentication**: base64 with a wrapping accumulator, salted digests, name resolution, SASL and the DIGEST-MD5
  exchange.

`dafny verify dfyconfig.toml` checks everything.

## How it is laid out

Each component has a layer of functions (what the code computes) with lemmas about them (what it promises), and where
the code works by changing things, a layer of classes and methods with the code's own loops, each proved to compute
exactly the function. `Ber`, `FilterCodec`, `Messages`, `MessageRoundTrip` are functions; `BerStream`, `FilterStream`,
`MessageEncoder`, `MessageDecoder` are the writer, the reader and everything that runs on them. `Handlers` holds the
write requests as steps of the directory, `HandlerProperties` what every step and every run keeps, `Session` the class
that runs them over `Memory.MemoryBackend`. `Sqlite` and `SqliteStore`, `FilterText` and `FilterParser`, `Schema` and
`SchemaValidation`, `LdifText` with `LdifStore` and `LdifRecords` pair up the same way.

Strings are sequences of octets. A `std::map` is a Dafny map walked in byte order of its keys (`OrderedKeys`).
Enumerations are read from the wire by unchecked casts, so they are their integers. Digests are arbitrary functions;
random draws, clock readings, rate-limiter verdicts and ticket checks are arguments, so every result holds for all of
them. A request that mutates shared state is one step: properties of handlers are stated for handlers that run one
at a time, key uniqueness for every interleaving of single backend calls.

## What turned out to be conditional

- A negative enumerated value is written in minimal form but read without sign extension, so it survives exactly when
  it is below -2^23 (`Ber.EnumeratedRoundTrip`).
- PLAIN resolves the login name to a DN, checks that DN like a login name, and binds to the DN. A DN without an equals
  sign can therefore be opened with another account's password (`Sasl.PlainOpensAnotherExactly`), even when it is disabled
  (`Sasl.SaslOpensDisabledExactly`); `DisabledAccounts` has the input. No other mechanism opens a disabled account, and
  none does when all DNs have an equals sign.
- ModifyDN can orphan entries. A move that succeeds does so exactly when the check `HandlerProperties.MoveKeepsTree`
  fails; for a comma-free RDN: when the entry has children or is its own new superior. `MoveCases` has an input for each
  of the three conditions, with the other two held.
- All-or-nothing for ModifyDN needs that no entry has the empty DN (`MoveCases.HalfDoneExactly`, with an input); the
  backend's add and rename see to that, and every run keeps it.
- A paging cookie whose number leaves a remainder of 2^31 or more modulo 2^32 is narrowed to a negative offset, from which
  the search loop indexes before the first entry. `SearchHandler.SearchUndefinedExactly` says exactly for which requests,
  `SearchHandler.WrappedRequest` is one; no cookie the server issues is such a cookie.
- With one page size, a size limit at or below it truncates a paged search whose result is larger
  (`Paging.FixedPageSize`).
- Adding and then deleting values does not restore an entry when an empty value list was added to a present type, or
  the type was present without values (`Modify.AddThenDelete`).
- The comparison of clear-text passwords also accepts a longer side that ends in a multiple of 256 NULs
  (`Password.PasswordsEqualExactly`).
- The rate limiter allows up to 2*limit-1 binds in a minute, and no more; both are proved.
- SQLite drops types without values, cuts strings at a NUL, and keeps the stored spelling of a DN on modify; LDIF drops
  types without values and trims names and values (`LdifExactness.RestoredExactly`). Each has its exact condition.
- A value between quotes in a DIGEST-MD5 text is read back exactly when it has no quote and no backslash: the printers do
  not escape.

## Model

| member | source | states |
|---|---|---|
| `Ber.LengthRoundTrip` | src/simple-ldapd/protocol/ber.cpp:19-34 | a length below 2^32 is read back exactly, whatever follows it |
| `Ber.ElementRoundTrip` | src/simple-ldapd/protocol/ber.cpp:90-95 | tag and contents of every element below 2^32 octets are read back, and the reader stops exactly at its end |
| `Ber.TaggedRoundTrip` | src/simple-ldapd/protocol/ber.cpp:156-174 | a reader that expects the written tag gets the contents and the rest |
| `Ber.IntegerBytesRoundTrip` | src/simple-ldapd/protocol/ber.cpp:42-58 | trimming repeated sign octets never changes the two's-complement value, for all 64-bit integers |
| `Ber.IntegerRoundTrip` | src/simple-ldapd/protocol/ber.cpp:176-194 | every 64-bit integer survives writing and reading |
| `Ber.EnumeratedRoundTrip` | src/simple-ldapd/protocol/ber.cpp:196-214 | an enumerated value survives exactly when it is non-negative or below -2^23: the reader does not extend the sign |
| `Ber.BooleanRoundTrip` | src/simple-ldapd/protocol/ber.cpp:216-229 | both booleans survive writing and reading |
| `BerStream.EncodeLength` | src/simple-ldapd/protocol/ber.cpp:19-34 | the loop that collects octets least significant first and reverses them yields the length octets of the specification |
| `BerStream.EncodeInteger` | src/simple-ldapd/protocol/ber.cpp:42-58 | the shifting and trimming loops yield the minimal two's-complement octets |
| `BerStream.BerWriter.WriteElement` | src/simple-ldapd/protocol/ber.cpp:90-95 | appends exactly one element to what the buffer held |
| `BerStream.BerWriter.WriteInteger` | src/simple-ldapd/protocol/ber.cpp:60-64 | appends exactly the encoded integer |
| `BerStream.BerWriter.WriteEnumerated` | src/simple-ldapd/protocol/ber.cpp:66-70 | appends exactly the encoded enumerated value |
| `BerStream.BerWriter.WriteBoolean` | src/simple-ldapd/protocol/ber.cpp:72-75 | appends exactly the encoded boolean |
| `BerStream.BerWriter.WriteOctetString` | src/simple-ldapd/protocol/ber.cpp:77-86 | appends exactly the octet string element |
| `BerStream.BerReader.Consume` | src/simple-ldapd/protocol/ber.cpp:112-120 | takes n octets if they are there, fails for good otherwise; the offset never passes the end |
| `BerStream.BerReader.NextLength` | src/simple-ldapd/protocol/ber.cpp:122-145 | short and long forms, at most four octets; accepts exactly what the specification reader accepts |
| `BerStream.BerReader.NextTagLength` | src/simple-ldapd/protocol/ber.cpp:147-154 | tag and length, with the same acceptance and position as the specification |
| `BerStream.BerReader.NextTagged` | src/simple-ldapd/protocol/ber.cpp:235-252 | contents under an expected tag, with the same acceptance and position as the specification |
| `BerStream.BerReader.NextConstructed` | src/simple-ldapd/protocol/ber.cpp:156-174 | a fresh reader over a copy of the contents; the outer reader moves past them |
| `BerStream.BerReader.NextInteger` | src/simple-ldapd/protocol/ber.cpp:176-194 | the register loop computes the two's-complement value of one to eight octets |
| `BerStream.BerReader.NextEnumerated` | src/simple-ldapd/protocol/ber.cpp:196-214 | the register loop without sign extension, truncated to 32 bits |
| `BerStream.BerReader.NextBoolean` | src/simple-ldapd/protocol/ber.cpp:216-229 | one octet, any non-zero value is true |
| `BerStream.BerReader.SkipElement` | src/simple-ldapd/protocol/ber.cpp:254-262 | moves past one element of any tag |
| `FilterCodec.NodeRoundTrip` | src/simple-ldapd/protocol/filter.cpp:235-295 | every filter tree without constant nodes and with one-child negations is decoded to itself, whatever follows |
| `FilterCodec.ReadNodeNoLonger` | src/simple-ldapd/protocol/filter.cpp:297-375 | whatever is accepted is well formed and re-encodes to no more octets than were read |
| `FilterCodec.AcceptedFilterIsStable` | src/simple-ldapd/protocol/filter.cpp:297-375 | every accepted octet string re-encodes to no more octets, which decode to the identical tree |
| `FilterStream.EncodeNode` | src/simple-ldapd/protocol/filter.cpp:235-295 | the recursive writer appends exactly the specification's octets |
| `FilterStream.DecodeNode` | src/simple-ldapd/protocol/filter.cpp:297-375 | the recursive reader terminates on every input and accepts, returns and consumes exactly what the specification does |
| `FilterStream.DecodeParts` | src/simple-ldapd/protocol/filter.cpp:346-372 | the component loop: repeated initial or final replaces, unknown parts are skipped |
| `MessageRoundTrip.OpRoundTrip` | src/simple-ldapd/protocol/message.cpp:419-558 | every canonical operation is decoded from its own encoding |
| `MessageRoundTrip.MessageBodyRoundTrip` | src/simple-ldapd/protocol/message.cpp:419-656 | every canonical message is decoded from its own encoding, trailing octets ignored |
| `MessageRoundTrip.FrameRoundTrip` | src/simple-ldapd/utils/net.cpp:298-331 | a message no larger than the limit is cut off the stream exactly at its end |
| `MessageRoundTrip.StreamRoundTrip` | src/simple-ldapd/utils/net.cpp:298-331 | the concatenation of any list of canonical messages is received as exactly that list, followed by what the rest of the stream gives |
| `MessageEncoder.EncodeLdapMessage` | src/simple-ldapd/protocol/message.cpp:560-656 | the writers of all operations together yield the octets of the specification |
| `MessageEncoder.EncodeSearch` | src/simple-ldapd/protocol/message.cpp:114-132 | the search request body |
| `MessageEncoder.EncodeBind` | src/simple-ldapd/protocol/message.cpp:59-76 | the bind request body, simple or SASL |
| `MessageEncoder.EncodeAttributes` | src/simple-ldapd/protocol/message.cpp:164-177 | nested loops over attributes and values |
| `MessageEncoder.EncodeChanges` | src/simple-ldapd/protocol/message.cpp:245-266 | nested loops over changes and values |
| `MessageEncoder.EncodeControls` | src/simple-ldapd/protocol/message.cpp:353-369 | controls, with criticality and value only when present |
| `MessageEncoder.EncodeExtendedResponse` | src/simple-ldapd/protocol/message.cpp:561-578 | the optional name and value of an extended response |
| `MessageDecoder.DecodeLdapMessage` | src/simple-ldapd/protocol/message.cpp:419-558 | the decoder terminates on every input and returns exactly what the specification reads |
| `MessageDecoder.DecodeSearch` | src/simple-ldapd/protocol/message.cpp:134-162 | search requests, same acceptance as the specification |
| `MessageDecoder.DecodeBind` | src/simple-ldapd/protocol/message.cpp:78-99 | bind requests, same acceptance as the specification |
| `MessageDecoder.DecodeAttributes` | src/simple-ldapd/protocol/message.cpp:179-203 | attribute lists, same acceptance as the specification |
| `MessageDecoder.DecodeChanges` | src/simple-ldapd/protocol/message.cpp:268-308 | change lists, same acceptance as the specification |
| `MessageDecoder.DecodeControls` | src/simple-ldapd/protocol/message.cpp:371-394 | control lists, same acceptance as the specification |
| `MessageDecoder.DecodeResult` | src/simple-ldapd/protocol/message.cpp:26-57 | result fields and the loop over optional ones |
| `MessageDecoder.Connection.NextPdu` | src/simple-ldapd/utils/net.cpp:298-331 | takes a frame off the connection exactly when the specification finds one |
| `MessageDecoder.Connection.ReceiveMessages` | src/simple-ldapd/core/session.cpp:66-89 | the receiving loop returns exactly the messages of the stream up to the first refused frame or message, or the first unbind request |
| `Filters.SubstringScanIsExact` | src/simple-ldapd/protocol/filter.cpp:153-181 | the leftmost-greedy scan accepts exactly the values that split as initial, gap, any, gap, ..., final |
| `Filters.SubstringMatches` | src/simple-ldapd/protocol/filter.cpp:153-181 | the scanning loop decides the same, hence whether a split exists |
| `FilterText.PrintedFilterParses` | src/simple-ldapd/protocol/filter.cpp:102-141 | a printed filter is parsed to itself and the position stops at its end |
| `FilterText.PrintedTextParses` | src/simple-ldapd/protocol/filter.cpp:379-391 | parsing inverts the natural printer on every tree whose names and values avoid the delimiters, and the whole text is used |
| `FilterParser.Parse` | src/simple-ldapd/protocol/filter.cpp:379-391 | the position-moving parser terminates on every text and computes the specification |
| `FilterParser.Parser.ReadFilter` | src/simple-ldapd/protocol/filter.cpp:102-141 | same acceptance, tree and position as the specification |
| `FilterParser.Parser.ReadList` | src/simple-ldapd/protocol/filter.cpp:91-100 | same acceptance, trees and position as the specification |
| `FilterParser.Parser.ReadItem` | src/simple-ldapd/protocol/filter.cpp:26-89 | same acceptance, item and position as the specification |
| `FilterParser.SplitValue` | src/simple-ldapd/protocol/filter.cpp:51-66 | the star-splitting loop with escaped pairs kept |
| `Dn.OneLevelChildIffParent` | src/simple-ldapd/utils/dn.cpp:44-63 | the textual one-level test holds exactly when the parent equals the non-empty base up to case |
| `Dn.DnEndsWithTransitive` | src/simple-ldapd/utils/dn.cpp:30-42 | being below a base is transitive |
| `Dn.ComposedParent` | src/simple-ldapd/utils/dn.cpp:73-81 | the parent of a composed name is the given parent when the RDN is comma-free and non-empty |
| `OrderedKeys.FirstMatch` | src/simple-ldapd/backend/memory.cpp:18-26 | the case-insensitive scan finds the first match in map order |
| `Memory.RunKeepsUnique` | src/simple-ldapd/backend/memory.cpp:54-115 | every interleaving of backend calls keeps DNs unique up to case and non-empty |
| `Memory.SearchIsExact` | src/simple-ldapd/backend/memory.cpp:28-52 | a search returns exactly the entries in scope that match |
| `Memory.MemoryBackend.LookupEntry` | src/simple-ldapd/backend/memory.cpp:18-26 | the scan computes the specification lookup |
| `Memory.MemoryBackend.SearchEntries` | src/simple-ldapd/backend/memory.cpp:28-52 | the loop computes the specification search, order included |
| `Memory.MemoryBackend.AddEntry` | src/simple-ldapd/backend/memory.cpp:54-66 | refuses empty and existing names, stores otherwise, keeps uniqueness |
| `Memory.MemoryBackend.ModifyEntry` | src/simple-ldapd/backend/memory.cpp:68-78 | replaces the entry found up to case |
| `Memory.MemoryBackend.RemoveEntry` | src/simple-ldapd/backend/memory.cpp:80-89 | removes the entry found up to case |
| `Memory.MemoryBackend.RenameEntry` | src/simple-ldapd/backend/memory.cpp:91-115 | one pass finds the source and refuses a taken name; keeps uniqueness |
| `Memory.MemoryBackend.HasChildEntries` | src/simple-ldapd/backend/memory.cpp:117-125 | whether any key is a one-level child |
| `Modify.ApplyAllMeaning` | src/simple-ldapd/backend/modify.cpp:30-85 | on entries unique up to case, a change list is the corresponding change of the map from folded type to set of folded values: same result code, same final map, uniqueness kept |
| `Modify.AddThenDelete` | src/simple-ldapd/backend/modify.cpp:30-85 | deleting what a successful add put in always succeeds, and restores the entry exactly when the type was absent, or had values and some were added |
| `Modify.MutableEntry.ApplyModifications` | src/simple-ldapd/backend/modify.cpp:30-85 | the in-place loops compute the specification, failures keeping what was done so far |
| `Acl.WriteImpliesSearch` | src/simple-ldapd/security/acl.cpp:192-224 | whoever may write an entry may search it |
| `Acl.AccessClosedDownward` | src/simple-ldapd/security/acl.cpp:127-132 | access to a base extends to everything below it |
| `Acl.SearchBelowAllowedBase` | src/simple-ldapd/core/session.cpp:253-258 | below a base that may be searched, the per-entry filter removes nothing |
| `Schema.CollectObjectClassesCorrect` | src/simple-ldapd/schema/registry.cpp:456-479 | the worklist terminates on every schema, cycles included, succeeds exactly when every reachable name is defined, and returns exactly the reachable classes |
| `Schema.ValidEntryHasOneChainTop` | src/simple-ldapd/schema/registry.cpp:486-535 | when no structural class is its own proper ancestor and primary names are distinct, every collected structural class of a valid entry is a structural ancestor of one leaf |
| `Schema.SchemaRegistry.AddObjectClass` | src/simple-ldapd/schema/registry.cpp:362-366 | indexing keeps the name index in step with the class list |
| `Schema.SchemaRegistry.AddAttribute` | src/simple-ldapd/schema/registry.cpp:356-360 | indexing keeps the name index in step with the attribute list |
| `Schema.SchemaRegistry.Collect` | src/simple-ldapd/schema/registry.cpp:456-479 | the pending/seen loop computes the closure |
| `SchemaValidation.FindSyntax` | src/simple-ldapd/schema/registry.cpp:445-454 | climbs at most 32 superior types to the first with a syntax |
| `SchemaValidation.Gather` | src/simple-ldapd/schema/registry.cpp:500-535 | the sets of leaves, required and allowed names, filled class by class |
| `SchemaValidation.Validate` | src/simple-ldapd/schema/registry.cpp:486-573 | the whole validation with its loops computes the specification result code |
| `Password.Base64RoundTrip` | src/simple-ldapd/auth/password.cpp:60-120 | decoding inverts encoding for every octet string, although the accumulator wraps around |
| `Password.EncodeBase64` | src/simple-ldapd/auth/password.cpp:60-79 | the group loop computes base64 |
| `Password.DecodeBase64` | src/simple-ldapd/auth/password.cpp:100-120 | the shifting loop with a wrapping 32-bit accumulator |
| `Password.ComparePasswords` | src/simple-ldapd/auth/password.cpp:36-45 | the loop that never leaves early decides the comparison |
| `Password.PasswordsEqualExactly` | src/simple-ldapd/auth/password.cpp:36-45 | that comparison is equality, except that the longer side may also end in a multiple of 256 NULs |
| `Password.StoredPasswordVerifies` | src/simple-ldapd/auth/password.cpp:195-224 | whatever is stored for a password without a scheme prefix verifies against it, for every digest function and salt |
| `PasswordModifyCodec.PasswordModifyRoundTrip` | src/simple-ldapd/protocol/message.cpp:816-867 | every password modify value is read back |
| `Bind.BindToStoredName` | src/simple-ldapd/auth/bind.cpp:35-110 | a name that spells a stored DN binds against exactly that entry |
| `DigestMd5.PairsRoundTrip` | src/simple-ldapd/auth/sasl.cpp:106-143 | the pair parser collects exactly the pairs that were printed |
| `DigestMd5.ChallengeIsRead` | src/simple-ldapd/auth/sasl.cpp:296-312 | a client reads back realm and nonce of every challenge whose realm and nonce hold no quote and no backslash |
| `DigestMd5.ResponseIsRead` | src/simple-ldapd/auth/sasl.cpp:199-234 | the server reads back exactly what a client hashed, when user name, realm, nonces and URI hold no quote and no backslash |
| `Sasl.DigestExchangeSucceeds` | src/simple-ldapd/auth/sasl.cpp:296-356 | for user name, realm, nonces and URI without quotes and backslashes, a client that knows the recoverable password of an enabled account completes the exchange and is bound to the entry its name resolves to, for every digest function |
| `Sasl.SaslBindEnabled` | src/simple-ldapd/auth/sasl.cpp:262-435 | no SASL mechanism binds a disabled account, when the request is not PLAIN or its name resolves to a DN that resolves to the same account or to none |
| `Sasl.SimpleBindEnabled` | src/simple-ldapd/auth/bind.cpp:35-68 | no simple bind opens a disabled account |
| `BindSession.BoundIffLastSucceeded` | src/simple-ldapd/core/session.cpp:162-205 | after every run of binds the session is bound exactly when the last one was answered Success, and otherwise anonymous |
| `BindSession.BoundAccountIsEnabled` | src/simple-ldapd/core/session.cpp:162-205 | under that check on request and directory, no bind of any run opens a disabled account |
| `BindSession.NonceIsOutstanding` | src/simple-ldapd/core/session.cpp:171-187 | the nonce is set exactly when some challenge is outstanding, and then it is that challenge's |
| `BindSession.SuccessAnswersItsChallenge` | src/simple-ldapd/auth/sasl.cpp:296-356 | every DIGEST-MD5 success answers the nonce of an earlier challenge, with no digest step and no considered simple bind in between |
| `BindSession.ChallengeBetweenSuccesses` | src/simple-ldapd/auth/sasl.cpp:296-356 | between two DIGEST-MD5 successes lies a new challenge |
| `RateLimit.PruningIsInvisible` | src/simple-ldapd/security/rate_limiter.cpp:41-72 | over every chronological trace the pruned limiter answers exactly as one that never prunes |
| `RateLimit.AtMostTwiceTheLimit` | src/simple-ldapd/security/rate_limiter.cpp:54-72 | a client key is allowed at most 2*limit-1 requests in any half-open minute |
| `RateLimit.BoundIsReached` | src/simple-ldapd/security/rate_limiter.cpp:54-72 | for every limit and client a trace reaches that bound |
| `RateLimit.RateLimiter.PruneLocked` | src/simple-ldapd/security/rate_limiter.cpp:41-52 | erasing while walking leaves exactly the unexpired buckets |
| `RateLimit.RateLimiter.Allow` | src/simple-ldapd/security/rate_limiter.cpp:54-72 | answer and new table of one request |
| `HandlerProperties.AddEffect` | src/simple-ldapd/core/session.cpp:347-378 | add changes nothing or inserts one entry with a valid name, parent and schema status |
| `HandlerProperties.ModifyEffect` | src/simple-ldapd/core/session.cpp:380-408 | modify changes nothing or rewrites one entry that passes the schema |
| `HandlerProperties.DeleteEffect` | src/simple-ldapd/core/session.cpp:410-429 | delete changes nothing or removes one childless entry |
| `HandlerProperties.PasswordModifyEffect` | src/simple-ldapd/core/session.cpp:551-615 | password modify changes nothing or rewrites one entry that passes the schema |
| `HandlerProperties.RenameCannotFail` | src/simple-ldapd/core/session.cpp:484-491 | once ModifyDN reaches its attribute write, both writes succeed |
| `HandlerProperties.ModifyDnEffect` | src/simple-ldapd/core/session.cpp:431-494 | ModifyDN changes nothing, or rewrites or moves one entry, attributes and name together |
| `HandlerProperties.StepKeepsDirectory` | src/simple-ldapd/core/session.cpp:347-494 | any response other than Success leaves the directory unchanged; keys stay unique and equal to their entries' DNs; valid entries stay valid |
| `HandlerProperties.RunKeepsDirectory` | src/simple-ldapd/core/session.cpp:347-494 | the same over every run of requests by any number of sessions |
| `HandlerProperties.StepKeepsTree` | src/simple-ldapd/core/session.cpp:347-429 | add, modify, delete and password modify never orphan an entry |
| `HandlerProperties.ModifyDnKeepsTreeExactly` | src/simple-ldapd/core/session.cpp:431-494 | a successful move adds no orphan exactly when a check on the directory before the call holds |
| `HandlerProperties.CommaFreeMoveKeepsTree` | src/simple-ldapd/core/session.cpp:431-494 | for a comma-free RDN that check is: no children, and the new superior is not the entry itself |
| `HandlerProperties.RunKeepsTree` | src/simple-ldapd/core/session.cpp:347-494 | over every run whose moves pass the check, the set of entries with a missing parent never grows |
| `HandlerProperties.NewPasswordBinds` | src/simple-ldapd/core/session.cpp:551-615 | after a successful password modify with a password that has no scheme prefix, a simple bind with that password, under any spelling of the target DN that contains an equals sign, succeeds exactly when the account is not disabled |
| `HandlerProperties.NewPasswordBindsExactly` | src/simple-ldapd/core/session.cpp:551-615 | for any new password, and any name that resolves to the target, the bind succeeds exactly when the account is not disabled and the stored form verifies against the password |
| `Session.Session.HandleBind` | src/simple-ldapd/core/session.cpp:162-205 | identity, nonce, answer and the limiter's table after one bind are exactly the specification step |
| `Session.Session.HandleAdd` | src/simple-ldapd/core/session.cpp:347-378 | result code and backend contents are exactly the specification step |
| `Session.Session.HandleModify` | src/simple-ldapd/core/session.cpp:380-408 | result code and backend contents are exactly the specification step |
| `Session.Session.HandleDelete` | src/simple-ldapd/core/session.cpp:410-429 | result code and backend contents are exactly the specification step |
| `Session.Session.HandleModifyDn` | src/simple-ldapd/core/session.cpp:431-494 | result code and backend contents after both writes are exactly the specification step |
| `Session.Session.HandlePasswordModify` | src/simple-ldapd/core/session.cpp:551-615 | result code and backend contents are exactly the specification step |
| `Session.Session.FindVisible` | src/simple-ldapd/core/session.cpp:229-258 | the base checks, the root DSE, the backend search and the visibility filter of a search |
| `SearchHandler.SeesEverythingBelow` | src/simple-ldapd/core/session.cpp:229-258 | a search with a non-empty base that is not denied sees exactly the matching entries in scope |
| `SearchHandler.PagedSearchDeliversAll` | src/simple-ldapd/core/session.cpp:229-311 | following cookies delivers exactly the result of the unpaged search |
| `SearchHandler.KeepVisible` | src/simple-ldapd/core/session.cpp:253-258 | the visibility loop |
| `SearchHandler.ToSearchEntry` | src/simple-ldapd/core/session.cpp:617-642 | exactly the wanted attributes are sent, in map order, userPassword only to the bound root |
| `Paging.PagedValueRoundTrip` | src/simple-ldapd/protocol/message.cpp:766-786 | size and cookie of the control value are read back |
| `Paging.CookieValueRoundTrip` | src/simple-ldapd/core/session.cpp:259-268 | decimal cookies are read back as the offset they were printed from |
| `Paging.SendPage` | src/simple-ldapd/core/session.cpp:259-311 | cookie, empty page, deadline, size limit and page size, in that order, give the page, the result code, the remainder and the next cookie of the specification |
| `Paging.FollowReceivesAll` | src/simple-ldapd/core/session.cpp:259-311 | without a size limit, or with one above every page size, every entry arrives exactly once and in order |
| `Paging.FixedPageSize` | src/simple-ldapd/core/session.cpp:284-305 | with one page size everything arrives exactly when the size limit is off, above the page size, or no smaller than the result; otherwise exactly the first size-limit entries |
| `Paging.PagedSearch` | main/ldapsearch.cpp:123-156 | the client's loop ends, having collected exactly what following the cookies gives, with strictly decreasing remainders that reach zero on success |
| `Decimal.DecimalRoundTrip` | src/simple-ldapd/core/session.cpp:260-268 | a printed number converts back to itself with nothing left over |
| `Sqlite.EntryRowsRegroup` | src/simple-ldapd/backend/sqlite.cpp:104-142 | flattening to ordered rows and regrouping keeps exactly the types that have values, so it is the identity exactly when all have |
| `Sqlite.AllEntriesIsDirectory` | src/simple-ldapd/backend/sqlite.cpp:152-180 | one scan over all rows builds the same directory as loading every entry by itself |
| `Sqlite.AnswersAgree` | src/simple-ldapd/backend/sqlite.cpp:243-382 | every call gives the memory backend's reply and leaves tables that stand for its next directory |
| `Sqlite.RunsAgree` | src/simple-ldapd/backend/sqlite.cpp:243-382 | over every sequence of calls the replies are identical to the memory backend's, search order included |
| `Sqlite.FreshRunsAgree` | src/simple-ldapd/backend/sqlite.cpp:243-382 | the same from empty tables and an empty map |
| `Sqlite.AddAgreesExactly` | src/simple-ldapd/backend/sqlite.cpp:282-300 | an added entry is stored alike exactly when every type has a value |
| `Sqlite.ModifyAgreesExactly` | src/simple-ldapd/backend/sqlite.cpp:302-318 | a modified entry is stored alike exactly when, in addition, the request spells the DN as stored |
| `SqliteStore.SqliteBackend.WriteRows` | src/simple-ldapd/backend/sqlite.cpp:118-142 | delete, then insert row by row with a running ord |
| `SqliteStore.SqliteBackend.LoadEntry` | src/simple-ldapd/backend/sqlite.cpp:104-116 | the cursor loop regroups the rows |
| `SqliteStore.SqliteBackend.AllRows` | src/simple-ldapd/backend/sqlite.cpp:152-180 | the two cursor loops build the map |
| `SqliteStore.SqliteBackend.SearchEntries` | src/simple-ldapd/backend/sqlite.cpp:255-280 | the loop over all entries computes the specification reply |
| `SqliteStore.SqliteBackend.LookupEntry` | src/simple-ldapd/backend/sqlite.cpp:243-253 | computes the specification reply |
| `SqliteStore.SqliteBackend.AddEntry` | src/simple-ldapd/backend/sqlite.cpp:282-300 | answer and tables of the specification step |
| `SqliteStore.SqliteBackend.ModifyEntry` | src/simple-ldapd/backend/sqlite.cpp:302-318 | answer and tables of the specification step |
| `SqliteStore.SqliteBackend.RemoveEntry` | src/simple-ldapd/backend/sqlite.cpp:320-339 | answer and tables of the specification step, rows going with their entry |
| `SqliteStore.SqliteBackend.RenameEntry` | src/simple-ldapd/backend/sqlite.cpp:341-369 | answer and tables of the specification step, rows following their entry |
| `LdifText.LinesRoundTrip` | src/simple-ldapd/backend/ldif.cpp:61-66 | lines without newlines are read back as written |
| `LdifText.AttributeLineSplits` | src/simple-ldapd/backend/ldif.cpp:75-84 | a printed attribute line, once trimmed, splits into its name and value |
| `LdifText.WriteLdif` | src/simple-ldapd/protocol/ldif.cpp:145-157 | the nested printing loops compute the text |
| `LdifStore.ExportThenImport` | src/simple-ldapd/backend/ldif.cpp:37-106 | a fresh import of an export gives every entry back, without types that have no value |
| `LdifStore.ExportImportRestores` | src/simple-ldapd/backend/ldif.cpp:37-106 | a directory whose names and values can be written is restored exactly when every type of every entry has a value |
| `LdifExactness.RestoredExactly` | src/simple-ldapd/backend/ldif.cpp:37-106 | a consistent directory is restored exactly when every DN, type and value can be written, no type is called dn, and every type has a value |
| `LdifExactness.ImportIsTidy` | src/simple-ldapd/backend/ldif.cpp:47-88 | whatever the file holds, what is imported has trimmed names and values without newlines, no colon in a name, and no empty type |
| `LdifStore.ImportText` | src/simple-ldapd/backend/ldif.cpp:47-88 | the line loop that collects and flushes entries into the backend |
| `LdifStore.ExportText` | src/simple-ldapd/backend/ldif.cpp:90-106 | the export of what the backend lists |
| `LdifRecords.FormatThenParse` | src/simple-ldapd/protocol/ldif.cpp:70-157 | parsing formatted entries gives one content record each, in order, with every value in place, once reserved names are excluded |
| `LdifRecords.ReadLdif` | src/simple-ldapd/protocol/ldif.cpp:70-133 | the parsing loop |
| `Persistence.RestartRestores` | src/simple-ldapd/backend/ldif.cpp:108-116 | with the file exported after each successful write, over every run of requests whose own names and values can be written as LDIF, what a restart imports is the directory |
| `MessageExactness.MessageSurvivesExactly` | src/simple-ldapd/protocol/message.cpp:419-656 | a message below 2^32 octets, given as an operation with its own fields, is decoded from its own encoding exactly when the operation is canonical: known, the fields its form does not use empty, filter and enumerations expressible |
| `MessageExactness.OpSurvivesExactly` | src/simple-ldapd/protocol/message.cpp:560-656 | the same for the operation alone, over its own fields |
| `MessageExactness.DecodedFilter` | src/simple-ldapd/protocol/message.cpp:134-162 | whatever was sent, a decoded search request holds a valid, well-formed filter |
| `SchemaMeaning.ValidExactly` | src/simple-ldapd/schema/registry.cpp:486-573 | validation succeeds exactly on entries that follow the schema, said over the classes reachable from their objectClass values: all defined, one structural leaf, every required type present, every type defined, allowed and in its syntax |
| `SchemaMeaning.LastDefinitionWins` | src/simple-ldapd/schema/registry.cpp:362-366 | a name stands for the last class that lists it, up to case, and for nothing when none does |
| `Accounts.AccountFilterParses` | src/simple-ldapd/auth/bind.cpp:70-76 | for every accepted name the filter text built around it parses to exactly the intended disjunction |
| `Accounts.FindsTheOnlyAccount` | src/simple-ldapd/auth/bind.cpp:70-81 | a name finds an entry exactly when it is free of filter syntax and that entry alone, below the base, carries it as uid or sAMAccountName |
| `Accounts.SearchDistinct` | src/simple-ldapd/backend/memory.cpp:28-52 | a search lists no entry twice |
| `FlatMessages.FlatSurvivesExactly` | src/simple-ldapd/protocol/message.cpp:419-656 | the message record with the fields of all operations survives exactly when its operation is canonical and every field that operation does not use holds its default |
| `FlatMessages.FlatStreamRoundTrip` | src/simple-ldapd/utils/net.cpp:298-331 | any list of such records is received as exactly that list |
| `FlatMessages.UnusedIsFlat` | src/simple-ldapd/protocol/message.cpp:419-432 | unused fields at their defaults is the same as being what the decoder fills in |
| `Sasl.PlainOpensAnotherExactly` | src/simple-ldapd/auth/sasl.cpp:272-296 | PLAIN binds to an account with a password that is not the account's exactly when the account's DN resolves to another account that takes the password |
| `Sasl.OpensWronglyExactly` | src/simple-ldapd/auth/sasl.cpp:272-296 | some such password exists for a name exactly when the name resolves to the DN, and the DN to another account that accepts a password it does not |
| `Sasl.SaslOpensDisabledExactly` | src/simple-ldapd/auth/sasl.cpp:262-435 | over all mechanisms and requests, a SASL bind opens a disabled account exactly by such a mismatch |
| `Sasl.DisabledOpensExactly` | src/simple-ldapd/auth/sasl.cpp:272-296 | some password opens a disabled DN under a name exactly when the name resolves to the DN, and the DN to another account that accepts a password |
| `Sasl.EqualsEverywhereIsSafe` | src/simple-ldapd/auth/bind.cpp:83-110 | when every DN of the directory has an equals sign, and the root's if there is a root, every request is safe |
| `Sasl.PlainRoundTrip` | src/simple-ldapd/auth/sasl.cpp:83-97 | the PLAIN parser inverts the credentials a client builds |
| `DisabledAccounts.ShadowOpens` | src/simple-ldapd/auth/sasl.cpp:272-296 | whenever a disabled entry's DN has no equals sign and is the login name of another entry, the other entry's password opens it |
| `DisabledAccounts.DisabledAccountOpens` | src/simple-ldapd/auth/sasl.cpp:272-296 | a directory of two entries on which this happens |
| `BindSession.BoundToDisabledExactly` | src/simple-ldapd/core/session.cpp:162-205 | over every run, a bind opens a disabled account exactly in that case |
| `BindSession.SessionOpensDisabled` | src/simple-ldapd/core/session.cpp:162-205 | a new session bound to the disabled entry of that directory |
| `DigestMd5.QuotedSurvivesExactly` | src/simple-ldapd/auth/sasl.cpp:121-133 | a quoted value is read back, with the reader just past it, exactly when it has no quote and no backslash |
| `MoveCases.ModifyDnSucceedsExactly` | src/simple-ldapd/core/session.cpp:431-494 | ModifyDN answers Success exactly when every check before its first write passes; editing the RDN values never fails |
| `MoveCases.HalfDoneExactly` | src/simple-ldapd/core/session.cpp:484-491 | in any directory with matching keys, a refused ModifyDN changes something exactly when it names the empty DN, passes every check and edits a value |
| `MoveCases.NonEmptyNamesAreNeeded` | src/simple-ldapd/core/session.cpp:484-491 | a directory with the empty DN on which that happens |
| `MoveCases.RootMoveOrphansExactly` | src/simple-ldapd/core/session.cpp:431-494 | the root moving an entry to a free name below a stored parent succeeds, and orphans an entry exactly when the check fails |
| `MoveCases.ChildlessnessIsNeeded` | src/simple-ldapd/core/session.cpp:431-494 | an input that orphans a child, the other two conditions held |
| `MoveCases.OtherSuperiorIsNeeded` | src/simple-ldapd/core/session.cpp:435-440 | an input that orphans the entry below its own old name, the other two conditions held |
| `MoveCases.CommaFreedomIsNeeded` | src/simple-ldapd/core/session.cpp:435-440 | an input that orphans the entry below the second half of its RDN, the other two conditions held |
| `Persistence.StepKeepsStorable` | src/simple-ldapd/core/session.cpp:347-494 | a request whose own names and values can be written keeps every entry writable and without empty types, stored passwords included |
| `Schema.AcyclicIsRanked` | src/simple-ldapd/schema/registry.cpp:486-535 | structural SUP edges without a cycle have a rank: the number of ancestors |
| `Sqlite.AddedIsFoundExactly` | src/simple-ldapd/backend/sqlite.cpp:63-69 | looking an added entry up gives it back, as the memory backend always does, exactly when nothing in it holds a NUL and every type has a value |
| `SqliteOrder.OrderIsDetermined` | src/simple-ldapd/backend/sqlite.cpp:104-116 | any listing of the rows that is sorted by the clause is the one the model uses |
| `SqliteOrder.QueriesAreDetermined` | src/simple-ldapd/backend/sqlite.cpp:163-166 | in well-formed tables both ordered queries have one possible answer |
| `Paging.SendFrom` | src/simple-ldapd/core/session.cpp:284-299 | the loop stops at the deadline, the size limit or the page's end, in that order of checks, having sent the entries from the offset |
| `Paging.IssuedPage` | src/simple-ldapd/core/session.cpp:300-310 | a page asked for with an issued cookie starts where the last one ended, and its own cookie says where it ends, deadline or not |
| `SearchHandler.HandlerServesPages` | src/simple-ldapd/core/session.cpp:207-311 | a request with one paged results control is answered with the page of the unpaged result at its cookie |
| `SearchHandler.ScanControls` | src/simple-ldapd/core/session.cpp:212-228 | the control loop: the last paged results control counts, a malformed one and other critical ones are refused |
| `Session.Session.HandleSearch` | src/simple-ldapd/core/session.cpp:207-311 | the whole handler, its checks in order, is the specification |
| `Paging.UndefinedExactly` | src/simple-ldapd/core/session.cpp:259-299 | the page is undefined exactly when the cookie wraps around to a negative offset, the page size is not zero, and the deadline has not passed or the remainder overflows |
| `Paging.WrappedCookie` | src/simple-ldapd/core/session.cpp:259-299 | the cookie 2147483648 is such a cookie for every result and page size |
| `Paging.IssuedIsDefined` | src/simple-ldapd/core/session.cpp:300-310 | no cookie the server issues is |
| `SearchHandler.SearchUndefinedExactly` | src/simple-ldapd/core/session.cpp:207-311 | the same for the whole handler: the request passes every check and carries such a cookie |
| `SearchHandler.WrappedRequest` | src/simple-ldapd/core/session.cpp:207-311 | one such request, which anyone can make |
| `PagedClient.SearchByPages` | main/ldapsearch.cpp:123-156 | the client's loop over the session's search handler collects exactly the pages of the unpaged result, or ends with the search's refusal |
| `PagedClient.SearchEverything` | main/ldapsearch.cpp:123-156 | without a size limit, or with one above every page size, it collects the whole result of the search |
| `OrderedKeys.SortedKeysUnique` | src/simple-ldapd/backend/memory.cpp:28-52 | a map has one ascending listing of its keys, so the order of every scan is determined |
| `Decimal.NegativeIsRefused` | src/simple-ldapd/core/session.cpp:260-267 | a printed negative number is refused as a cookie |

## Left out

- The clock: whether a search is late at each check is an argument.
- Sockets, polling, TLS, idle timeouts and thread plumbing: only the octets that arrive and a `tls` flag are modelled.
- Interleaving of the separate backend calls inside one handler with other sessions, beyond key uniqueness.
- DigestMd5.ChallengeIsRead: stated for realms and nonces without quotes and backslashes, which the printer does not escape.
- DigestMd5.ResponseIsRead: stated for names, realms, nonces and URIs without quotes and backslashes, for the same reason.
- Sasl.DigestExchangeSucceeds: has the same condition; whether another name happens to be accepted depends on the digest,
  of which nothing is assumed, so there is no exact condition to give.
- GSSAPI keytabs and tickets: the check is an argument that may return anything.
- Digest functions and random generators: any function and any draw; nothing is claimed about collisions or secrecy.
- The in-place update of digest pairs and of password values before a write: `ParsePairs`, `EncodeEntryPasswords` and
  `EncodeChangePasswords` are functions on values.
- SQL failures, transactions and rollback: statements succeed; the seed file is not read.
- Sqlite.AnswersAgree: assumes no NUL in stored strings (columns are read as C strings), no type without values, and
  modify requests that spell the DN as stored; each is shown to be needed.
- The file system: a file is its text, and opening or writing it does not fail.
- LDIF base64 values and line folding: the original does not handle them.
- The schema file tokenizer: the model starts from loaded definitions; a class without a name is rejected there.
- Configuration and ACL line parsing, logging, diagnostics texts, the display text of filters, the root DSE's values
  (an argument), command-line tools other than the cookie loop.
- Compare, Who am I and StartTLS are not modelled.
- The password comparison accumulates an OR of XORs; the model keeps the flag "some pair differed", which is when that
  is non-zero. Signed left shifts that overflow are taken to wrap.
- DN escapes and multi-valued RDNs: the original treats DNs as raw strings, and so does the model.
- HandlerProperties.StepKeepsDirectory: directories are assumed to have unique, matching, non-empty keys, which every
  run from such a directory keeps.
