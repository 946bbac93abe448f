# A verified model of the routing kernel's trust core

This project models five components of the message-routing kernel and proves what
they keep over every input and every run.

* **The policy object** (`P2PAuthLogin.cpp`): login, ack, relay and sealed-body
  checks, the three replay caches, the revocation list with its file and its signed
  distribution, key rotation, and the seal's reader set. `AuthPolicy.dfy` is the
  object, a class whose methods change its fields as the program's do. Beside the
  fields it keeps three ghost histories (`logins`, `relays`, `openings`) that `Valid()`
  ties to the caches, so that a theorem about a history is a theorem about every run
  of calls. The specifications it is proved against are in `PeerKeys.dfy`,
  `ReplayCache.dfy`, `SealRing.dfy`, `SealReaders.dfy`, `Revocation.dfy`,
  `Transcript.dfy`, `Signatures.dfy`, `AuthBlocks.dfy` and `Utf8.dfy`.
* **The identity store** (`P2PIdentityStore.cpp`): the key container
  (`KeyContainer.dfy`), the line-oriented text files (`TextStore.dfy`,
  `TextFiles.dfy`), and the create-if-absent protocol several processes may race on
  (`CreateOnce.dfy`).
* **The wildcard matcher** (`P2Peer.cpp`, `Wildcard.dfy`).
* **The in-process rendezvous** (`P2PeerConDmx.cpp`, `Dmx.dfy`). Each method of
  `Transport` is one section under the transport's lock, or one step a connection's
  own thread takes without it; any sequence of calls is one interleaving.
* **The HKDF expand loop** (`P2PCngCrypto.cpp`, `Hkdf.dfy`), against section 2.3 of
  RFC 5869.

`Bytes.dfy` holds octets and the big-endian integers, `Primitives.dfy` the sizes and
the hash every format shares, `PrefixCode.dfy` the argument both UTF-8 directions
share.

## What the model assumes

* Signatures are ideal: one verifies exactly when it is in the log of what was
  signed, every signing gives a signature not given before, and a signing that would
  repeat one fails. Two encodings of one ECDSA signature are not told apart.
* SHA-256, HMAC, point import, the opening of a sealed body, the fingerprint and the
  protector of key payloads are functions given as parameters, with the laws named
  where they are used (`IsSha`, `Total`, `Lawful`); a fingerprint is one line of at
  most 40 octets. A SHA-256 collision is the one
  escape the agreement theorems leave.
* A call reads the clock once. The skew is a mathematical integer: the program's cast
  to `long` at `P2PAuthLogin.cpp:1902` and `P2PAuthLogin.cpp:2088` is assumed to fit.
* The cache bound and the largest reader set are symbolic positive constants, `cap`
  and `maxReaders`. The two windows are fixed for the life of a policy object; the
  replay switches, the keys, the lists and the authority are not.
* A file is read whole and replaced whole, each atomic and each free to fail; nothing
  else writes it. Strings hold no NUL. `isdigit` is ASCII.

## Where a promise is narrower than it sounds

The code is followed in each case.

* `IsMapped` does not decide the wildcard relation for patterns ending in two stars:
  at the end of the text it skips only one. `Wildcard.DecidesExactlyWhen` gives the
  exact condition.
* `P2PIdentityStore.h` allows any reason without a newline in a revocation entry. A
  reason that takes the line past 4096 octets is appended without complaint and makes
  the whole file unreadable afterwards (`TextStore.RevokedAppendThenLoad`,
  `TextStore.LongReasonSpoilsFile`). The policy
  object's own reason is always short enough.
* The framing of transcripts is described as unambiguous. It is so on fields shorter
  than n exactly for n up to 65536, where the length prefix wraps
  (`Transcript.FramesApartExactlyUpTo`); `Transcript.OversizeFieldsCollide` has two
  logins with a longer address and one transcript.
* `P2PAuthLogin.h` says a body sealed at or before the floor is refused; the code
  admits one sealed in the same second (`AuthPolicy.HandedOutAgainExactlyWhen`, and
  `SealRing.AdmittedTwiceIsPossible` for a run in which it happens).
* `P2PAuthLogin.h` says relay replay refusal is off by default; the constructor turns
  it on.
* A signed list whose fresh entry carries a negative stamp cannot be stored: the call
  fails and the hub closes (`AuthPolicy.AddRevokedPoint`, `Revocation.Storable`). A
  list the program itself issues never has one.
* The destructor of an in-process connection is safe when no accept is armed as it
  begins, or it is not in the list; an armed service that a client's name finds can be
  latched between its two critical sections
  (`Dmx.Transport.DestructorSafeExactlyWhen`, `Dmx.DanglingRun` for the input,
  `Dmx.Interleave` for the safe side).
* A nonce is refused for as long as a login could be fresh, not for ever: a listed
  signer that puts one nonce under a later stamp has it accepted again
  (`ReplayCache.NonceTwiceIsPossible`). `AuthPolicy.NonceRefusedExactly` says which
  nonces are refused, and `AuthPolicy.NoNonceAcceptedTwice` what follows when each
  nonce is signed with one stamp.

## Model

| member | source | states |
|---|---|---|
| AuthPolicies.AuthPolicy.VerifyLogin | P2PAuthLogin.cpp:1880-1929 | The result is the verdict of the checks in their order; only on success is the nonce noted, and the statement then joins the history under a key listed for the source and not revoked |
| AuthPolicies.AuthPolicy.LoginAgreement | P2PAuthLogin.cpp:1844-1928 | Every login ever accepted was signed, field for field and as a login, by the holder of the key it was accepted under: never an ack, relay, revocation or seal signature |
| AuthPolicies.AuthPolicy.NonceTwiceIsTwoSignings | P2PAuthLogin.cpp:1764-1808 | In any run with a fixed positive window and a clock that never goes back, a nonce accepted twice was signed into two logins, the second with a strictly later stamp |
| AuthPolicies.AuthPolicy.NonceRefusedExactly | P2PAuthLogin.cpp:1773-1793 | A nonce is refused if and only if it was accepted within two windows of the last login accepted |
| AuthPolicies.AuthPolicy.NoNonceAcceptedTwice | P2PAuthLogin.cpp:1764-1808 | So no nonce is accepted twice while no two logins are signed under one nonce with different stamps |
| AuthPolicies.AuthPolicy.NonceReplayNeedsCapOthers | P2PAuthLogin.cpp:1795-1801 | Without a window a nonce comes back only after the bound's number of others |
| AuthPolicies.AuthPolicy.BuildLogin | P2PAuthLogin.cpp:1844-1877 | Refused exactly for a short buffer and then for a missing identity; otherwise one signature of exactly these fields joins the log and the block holds it, or nothing is signed |
| AuthPolicies.AuthPolicy.BuiltLoginIsAccepted | P2PAuthLogin.cpp:1844-1929 | What one hub builds as a login another accepts when the key is listed and live, the stamp fresh and the nonce unseen, whatever octets follow the block |
| AuthPolicies.AuthPolicy.LoginOkExactly | P2PAuthLogin.cpp:1880-1929 | Whatever the order of the checks: a login succeeds if and only if it is well formed, fresh and unseen, and some listed, unrevoked key vouches for it |
| AuthPolicies.AuthPolicy.RelayOkExactly | P2PAuthLogin.cpp:2051-2112 | The same if and only if for a relay block up to its signature |
| AuthPolicies.AuthPolicy.CheckLogin | P2PAuthLogin.cpp:1885-1921 | The order of the login checks, each error included |
| AuthPolicies.AuthPolicy.NoteNonce | P2PAuthLogin.cpp:1773-1808 | Both trimming loops leave exactly the specified cache |
| AuthPolicies.AuthPolicy.NoLoginWhileClosed | P2PAuthLogin.cpp:1214-1328 | No login succeeds while a configured revocation list is unusable or stale |
| AuthPolicies.AuthPolicy.BuildAck | P2PAuthLogin.cpp:1931-1953 | As for a login: the same refusals, and one signed ack of exactly this nonce or nothing |
| AuthPolicies.AuthPolicy.VerifyAck | P2PAuthLogin.cpp:1956-1981 | The result is the verdict of the checks in their order |
| AuthPolicies.AuthPolicy.AckAgreement | P2PAuthLogin.cpp:1956-1981 | An accepted ack was signed as an ack of this nonce between these addresses by a listed, unrevoked key |
| AuthPolicies.AuthPolicy.BuildRelay | P2PAuthLogin.cpp:1994-2048 | Refused exactly for a missing identity, an attester or buffer that does not fit, and a revoked own key or an unusable list, in that order; otherwise one signed relay statement and its block, or an internal error and nothing signed |
| AuthPolicies.AuthPolicy.MayRelay | P2PAuthLogin.cpp:1994-2018 | The refusals before signing, in their order |
| AuthPolicies.AuthPolicy.VerifyRelay | P2PAuthLogin.cpp:2051-2130 | The result is the verdict of the checks; under refusal exactly the verified, unseen signatures are noted, with the statement and a listed, unrevoked key joining the history; the attester name is handed out on success only |
| AuthPolicies.AuthPolicy.RelayAgreement | P2PAuthLogin.cpp:2051-2121 | Every relay block ever noted was signed as that relay statement by the holder of the key it was accepted under, up to a collision of the hash of the body |
| AuthPolicies.AuthPolicy.DecodeAttester | P2PAuthLogin.cpp:2070-2076 | 255 octets always fit the 256-unit buffer, so only malformed UTF-8 is refused, and the scan for the terminator gives the whole name back |
| AuthPolicies.AuthPolicy.CheckRelay | P2PAuthLogin.cpp:2061-2111 | The order of the relay checks up to the signature |
| AuthPolicies.AuthPolicy.BuiltRelayIsAccepted | P2PAuthLogin.cpp:1994-2130 | For every attester of 1 to 255 octets, a built relay block that is listed, live, fresh and unseen is accepted and names the same attester |
| AuthPolicies.AuthPolicy.RelayReplayNeedsCapOthers | P2PAuthLogin.cpp:1640-1700 | A relay signature noted twice has at least the bound's number of other notes strictly between |
| AuthPolicies.AuthPolicy.RelayCacheBounded | P2PAuthLogin.cpp:1640-1700 | Whatever the clock does, the relay cache stays within its bound and in the order of noting |
| AuthPolicies.AuthPolicy.NoteRelaySig | P2PAuthLogin.cpp:1640-1700 | Trimming by age, then by count, leaves exactly the specified cache |
| AuthPolicies.AuthPolicy.NoAckOrRelayWhileClosed | P2PAuthLogin.cpp:1302-1328 | No ack and no relay block is accepted while the hub fails closed |
| AuthPolicies.AuthPolicy.PeerKeyCount | P2PAuthLogin.cpp:1279-1300 | Counts exactly the live keys of an address, and says "all revoked" exactly when some are listed and none is live |
| AuthPolicies.AuthPolicy.PeerKeyAt | P2PAuthLogin.cpp:1254-1277 | Enumerates the live keys in list order, without gap or repeat |
| AuthPolicies.AuthPolicy.VerifyAgainstPeer | P2PAuthLogin.cpp:1302-1328 | The result is that of trying the live keys in order |
| PeerKeys.AuthOkExactly | P2PAuthLogin.cpp:1302-1328 | Success needs a listed, unrevoked key that verifies; when every listed key imports it is also enough |
| PeerKeys.AuthErrRevokedExactly | P2PAuthLogin.cpp:1279-1312 | "Revoked" is answered exactly when keys are listed and every one of them is revoked |
| PeerKeys.LiveIs | P2PAuthLogin.cpp:1263-1274 | The live keys are the listed keys that are not revoked |
| PeerKeys.NothingWhileClosed | P2PAuthLogin.cpp:1214-1230 | Under a configured list that is unusable or stale no key is live and no signature is accepted |
| AuthPolicies.AuthPolicy.IsRevokedPoint | P2PAuthLogin.cpp:1214-1230 | Fails closed: every point is revoked while a configured list is unusable or stale |
| AuthPolicies.AuthPolicy.IsRevokedPointRaw | P2PAuthLogin.cpp:1203-1212 | Membership, independent of the state of the list |
| AuthPolicies.AuthPolicy.SelfKeyRevoked | P2PAuthLogin.cpp:1232-1252 | Either own key is revoked, and never so while the list is unconfigured or unusable |
| AuthPolicies.AuthPolicy.IsRevocationUsable | P2PAuthLogin.cpp:1174-1201 | False exactly while the hub fails closed |
| AuthPolicies.AuthPolicy.SetIdentity | P2PAuthLogin.cpp:590-622 | A key that did not load or is revoked leaves the one in use |
| AuthPolicies.AuthPolicy.SetAgreement | P2PAuthLogin.cpp:1338-1371 | The same for the agreement key |
| AuthPolicies.AuthPolicy.ReloadAllowList | P2PAuthLogin.cpp:638-665 | The whole file's entries replace the list, or the list in use stays |
| AuthPolicies.AuthPolicy.ApplyRevocationList | P2PAuthLogin.cpp:1089-1172 | A refused list changes nothing in memory or on disk; a believed one is one step of the merge relation; agreement of memory and file survives even a failed append midway |
| AuthPolicies.AuthPolicy.TakeList | P2PAuthLogin.cpp:1141-1172 | A believed list is merged wholly, raising the epoch and dropping an authority it withdraws, or up to the first entry that could not be stored, closing the hub |
| AuthPolicies.AuthPolicy.MergeEntries | P2PAuthLogin.cpp:1141-1156 | The loop adds exactly the entries not held, each once and in order, stored before it is held |
| AuthPolicies.AuthPolicy.Applied | P2PAuthLogin.cpp:1158-1169 | After a full merge the authority is kept exactly when the set does not hold it |
| AuthPolicies.AuthPolicy.CheckRevocationList | P2PAuthLogin.cpp:1089-1139 | The order of the checks: shape, authority, file, issuer, key, signature, epoch |
| AuthPolicies.AuthPolicy.RevocationAgreement | P2PAuthLogin.cpp:1110-1139 | A believed list was signed by the named authority as a revocation list with these entries, up to a collision of the hash |
| AuthPolicies.AuthPolicy.IssuedListIsBelieved | P2PAuthLogin.cpp:1032-1172 | What one hub issues another with that authority and an earlier epoch believes; it reads back exactly the issuer's points, the merge adds exactly those not held and reports how many, and no stamp in it can make an append fail |
| AuthPolicies.AuthPolicy.IssueRevocationList | P2PAuthLogin.cpp:1032-1087 | The block is the wire form of the held points with no stamps, and its signature covers exactly that |
| AuthPolicies.AuthPolicy.AddRevokedPoint | P2PAuthLogin.cpp:1015-1030 | Stored and then held, or neither; and the file still gives the set held |
| AuthPolicies.AuthPolicy.ReloadRevocationList | P2PAuthLogin.cpp:918-945 | A load that fails closes the hub and keeps the old set; reloading what the hub itself wrote changes nothing, and up to 4 MiB can fail only when the read does |
| AuthPolicies.AuthPolicy.SetRevocationList | P2PAuthLogin.cpp:895-916 | After it the hub agrees with the file or fails closed |
| AuthPolicies.AuthPolicy.SetRevocationAuthority | P2PAuthLogin.cpp:973-1008 | Refused exactly for a listed point or one that does not import, also while the hub is closed |
| AuthPolicies.MirrorsAppended | P2PAuthLogin.cpp:1015-1030 | Appending one entry to a file that mirrors the set mirrors the set with that point added |
| AuthPolicies.AuthPolicy.ReceiveAll | P2PAuthLogin.cpp:1089-1172 | Convergence of the hub: given blocks of one authority in any order, repeated or with some missing, whose lists grow, do not name it and are above the hub's epoch, it ends, unless an append fails, with its first set united with the newest list given, at its epoch |
| AuthPolicies.AuthPolicy.ApplyAll | P2PAuthLogin.cpp:1089-1172 | Any run of calls on any blocks is a run of merge steps from the first state to the last, each answered by its verdict; the set only grows, the epoch never falls, and the file still holds the set |
| AuthPolicies.AuthPolicy.GenuineRun | P2PAuthLogin.cpp:1110-1139 | In such a run every genuine list is applied or stale, and the authority stays |
| AuthPolicies.AuthPolicy.GenuineIsBelieved | P2PAuthLogin.cpp:1110-1139 | A genuine list of the authority above the hub's epoch is believed |
| Revocation.RunConverges | P2PAuthLogin.cpp:1089-1172 | The same of any run of merge steps that were applied or stale |
| Revocation.Converges | P2PAuthLogin.cpp:1139-1169 | The same for the delivery function |
| Revocation.RunDelivers | P2PAuthLogin.cpp:1139-1169 | A run of calls that each applied or found stale a genuine list is that sequence of deliveries |
| Revocation.AuthorityKept | P2PAuthLogin.cpp:1161-1169 | While no list names the authority it stays the authority |
| Revocation.HubsAgree | P2PAuthLogin.cpp:1089-1172 | Two hubs that start alike and hear the same newest list hold the same set |
| Revocation.RunGrows | P2PAuthLogin.cpp:1089-1172 | In every run of calls, whatever each returned, the set only grows at its end and the epoch never falls |
| Revocation.MergedIsUnion | P2PAuthLogin.cpp:1141-1156 | A merge is the union of the set and the list |
| Revocation.FreshIsDifference | P2PAuthLogin.cpp:1141-1156 | What a merge adds is the list without the points held, and the number reported is the size of that difference |
| Revocation.FreshOnce | P2PAuthLogin.cpp:1145-1145 | A merge adds no point twice and none already held |
| Revocation.BlockRoundTrip | P2PAuthLogin.cpp:1032-1114 | Parsing what was written gives back epoch, entries, issuer, signature and the signed statement |
| Revocation.PutEntries | P2PAuthLogin.cpp:1054-1070 | The writing loop produces the header and the packed entries |
| Revocation.PutUnsigned | P2PAuthLogin.cpp:1054-1078 | What is signed is the entries as they stand in the block |
| Revocation.MergeNext | P2PAuthLogin.cpp:1142-1156 | One turn of the merge loop: already held, stored, or the point where the merge ends |
| AuthPolicies.AuthPolicy.Open | P2PAuthLogin.cpp:1493-1597 | A body is handed out exactly as the verdict says; what opened is one step of the ring's history, what did not leaves no trace, and a refused text is wiped |
| AuthPolicies.AuthPolicy.HandedOutAgainExactlyWhen | P2PAuthLogin.cpp:1520-1588 | A body handed out under refusal is handed out again under refusal if and only if it is not stale, was evicted, and its stamp equals the floor or the floor was never raised, whatever was toggled between |
| AuthPolicies.AuthPolicy.SealCacheIs | P2PAuthLogin.cpp:1711-1762 | After any run the ring is the last noted bodies up to its bound, in order, and the floor is the newest stamp evicted |
| AuthPolicies.AuthPolicy.SealFloorNeverFalls | P2PAuthLogin.cpp:1711-1762 | The floor never falls over a run |
| AuthPolicies.AuthPolicy.NoteSealSig | P2PAuthLogin.cpp:1711-1762 | The ring overwrite and the floor update are the specified step |
| AuthPolicies.AuthPolicy.NoteOpening | P2PAuthLogin.cpp:1586-1586 | Only admitted bodies are noted, and only under refusal |
| AuthPolicies.AuthPolicy.Refuse | P2PAuthLogin.cpp:1537-1569 | Freshness first and always; then floor and ring, under refusal only |
| AuthPolicies.AuthPolicy.TryOpen | P2PAuthLogin.cpp:1494-1596 | The gates in their order, then each live sender key until one outcome is not a bad signature |
| AuthPolicies.FirstOpenIs | P2PAuthLogin.cpp:1513-1596 | A body is reported badly signed exactly when it is so under every live key, and otherwise its outcome is one live key's outcome |
| AuthPolicies.AuthPolicy.OpenedFits | P2PAuthLogin.cpp:1494-1530 | What opens, opens under a live key listed for the declared sender, and fits the buffer |
| AuthPolicies.AuthPolicy.Wipe | P2PAuthLogin.cpp:1573-1581 | The wiped octets are zero and the rest of the buffer is untouched |
| AuthPolicies.AuthPolicy.NothingSealedWhileClosed | P2PAuthLogin.cpp:1494-1511 | Nothing is opened and nothing is sealed while the hub fails closed |
| AuthPolicies.AuthPolicy.SetSealReplayRefused | P2PAuthLogin.cpp:869-869 | Toggling the switch keeps ring and floor |
| AuthPolicies.AuthPolicy.SetRelayReplayRefused | P2PAuthLogin.cpp:868-868 | Toggling the switch keeps the cache |
| AuthPolicies.AuthPolicy.AddSealReader | P2PAuthLogin.cpp:1379-1401 | Accepted exactly when named, not held yet, and a place is left beside the destination's |
| AuthPolicies.AuthPolicy.Seal | P2PAuthLogin.cpp:1417-1491 | The reader set is complete or the seal is refused with the reason; it always fits, so the too-many-readers error cannot occur |
| AuthPolicies.AuthPolicy.GatherReaders | P2PAuthLogin.cpp:1451-1487 | The loop gathers the specified reader set |
| AuthPolicies.AuthPolicy.FindAgreement | P2PAuthLogin.cpp:1599-1623 | The first entry of the address with an agreement key that is not revoked |
| SealReaders.AgreementIs | P2PAuthLogin.cpp:1599-1623 | There is a key exactly when some entry offers one, and it is the first that does |
| SealReaders.GatherShape | P2PAuthLogin.cpp:1446-1487 | The destination comes first and no key twice; a refusal names a reader without a key |
| SealReaders.GatherIs | P2PAuthLogin.cpp:1446-1487 | A body is sealed to the destination and every named reader and to nobody else |
| SealReaders.ReaderNotRevoked | P2PAuthLogin.cpp:1617-1619 | No body is sealed to a revoked key |
| SealRing.RingIs | P2PAuthLogin.cpp:1711-1762 | The ring after any notes is the last of them in order, and its floor the newest stamp evicted, not the last |
| SealRing.RunFloorNeverFalls | P2PAuthLogin.cpp:1755-1758 | The floor never falls, whatever is toggled in a run |
| SealRing.HeldOrBelowFloor | P2PAuthLogin.cpp:1546-1569 | A body admitted under refusal is from then on in the ring or no newer than the floor |
| SealRing.AdmittedAgainExactlyWhen | P2PAuthLogin.cpp:1546-1569 | The exact condition of a second admission, for every stamp, over whole runs |
| SealRing.AdmittedTwiceIsPossible | P2PAuthLogin.cpp:1546-1569 | A run in which a body is admitted, evicted by another of the same second, and admitted again |
| ReplayCache.TrimByAge | P2PAuthLogin.cpp:1777-1793 | The in-place compaction keeps exactly the entries within the age, in order |
| ReplayCache.NonceCacheIs | P2PAuthLogin.cpp:1773-1808 | The nonce cache is exactly the notes not two windows old, or the last ones up to the bound without a window |
| ReplayCache.RelayCacheIs | P2PAuthLogin.cpp:1640-1700 | The relay cache is exactly the notes both young enough and among the last ones up to the bound |
| ReplayCache.RelayCacheKeepsOrder | P2PAuthLogin.cpp:1640-1700 | Bounded and in insertion order even when the clock goes back |
| ReplayCache.NonceHeldExactly | P2PAuthLogin.cpp:1777-1793 | Under a window the cache holds exactly the nonces noted within two windows of the last note |
| ReplayCache.NonceTwiceIsTwoStamps | P2PAuthLogin.cpp:1900-1926 | A nonce in a run twice comes with a strictly later stamp the second time |
| ReplayCache.NonceTwiceIsPossible | P2PAuthLogin.cpp:1773-1808 | A run in which a nonce signed again under a later stamp is accepted twice |
| ReplayCache.NoNonceTwice | P2PAuthLogin.cpp:1900-1926 | Age trimming never drops a nonce whose login freshness would still admit |
| ReplayCache.NonceReturnsAfterCap | P2PAuthLogin.cpp:1795-1801 | The bound on returning nonces without a window |
| ReplayCache.RelayReturnsAfterCap | P2PAuthLogin.cpp:1640-1700 | Age trimming never gives back a relay block that freshness would still admit |
| Signatures.VerifiedWasSigned | P2PAuthLogin.cpp:232-260 | What verifies as a statement was signed as that statement; a body or entry array can differ only by a hash collision |
| Signatures.OneSignatureOneStamp | P2PAuthLogin.cpp:402-438 | One signature covers one stamp and one key |
| Transcript.SignableInjective | P2PAuthLogin.cpp:221-260 | Equal transcripts are equal statements when every field is under 65536 octets, up to a hash collision; an absent binding differs from any present one |
| Transcript.SameKindSameFields | P2PAuthLogin.cpp:232-438 | Transcripts of different kinds, the seal label included, are never equal |
| Transcript.FrameInjective | P2PAuthLogin.cpp:221-230 | Length-prefixed fields under 65536 octets can be read off one way only |
| Transcript.FramesApartExactlyUpTo | P2PAuthLogin.cpp:221-230 | The framing is injective on fields shorter than n if and only if n is at most 65536 |
| Transcript.OversizeFieldsCollide | P2PAuthLogin.cpp:221-260 | Two different logins with a longer address share a transcript, because the length field wraps |
| Transcript.Transcript | P2PAuthLogin.cpp:232-260 | The builder gives the transcript of the login or ack exactly when both addresses encode |
| Transcript.RelayTranscript | P2PAuthLogin.cpp:402-438 | The same for a relay statement |
| Transcript.RevListTranscript | P2PAuthLogin.cpp:314-336 | The same for a revocation list |
| AuthBlocks.LoginRoundTrip | P2PAuthLogin.cpp:1844-1877 | Reading a login block gives back nonce, stamp and signature |
| AuthBlocks.RelayRoundTrip | P2PAuthLogin.cpp:2030-2090 | Reading a relay block gives back attester, stamp and signature for every attester length |
| AuthBlocks.WriteLogin | P2PAuthLogin.cpp:1865-1873 | The stores produce the block |
| AuthBlocks.WriteRelay | P2PAuthLogin.cpp:2030-2047 | The stores produce the block |
| Bytes.I64RoundTrip | P2PAuthLogin.cpp:148-166 | A signed 64-bit value survives the wire |
| Bytes.FromI64RoundTrip | P2PAuthLogin.cpp:148-166 | Every eight octets are the wire form of what they read as |
| Bytes.PutI64 | P2PAuthLogin.cpp:148-155 | The store loop writes the wire form and nothing else |
| Bytes.GetI64 | P2PAuthLogin.cpp:157-166 | The load loop reads it |
| Utf8.DecodeEncode | P2PAuthLogin.cpp:173-219 | Decoding after encoding is the identity on every valid NUL-free text |
| Utf8.EncodeDecode | P2PAuthLogin.cpp:344-396 | Encoding after decoding is the identity on every accepted octet string: only shortest forms are accepted |
| Utf8.WideRoundTrip | P2PAuthLogin.cpp:173-219 | A wide string that encodes is what its encoding decodes to, at either width |
| Utf8.SameBytesAcrossWidths | P2PAuthLogin.cpp:173-219 | A 16-bit and a 32-bit wide string have the same octets exactly when they spell the same text |
| Utf8.UnitsFit | P2PAuthLogin.cpp:2070-2076 | A decoded text never needs more units than its octets |
| Utf8.Utf8FromWide | P2PAuthLogin.cpp:173-219 | The loop accepts exactly the well-formed wide strings and gives their encoding |
| Utf8.WideFromUtf8 | P2PAuthLogin.cpp:344-396 | The loop accepts exactly the well-formed octets whose text and terminator fit, and stores them |
| Utf8.LoadScalar | P2PAuthLogin.cpp:350-380 | One head of strict UTF-8: no overlong form, surrogate, NUL or value past U+10FFFF |
| PrefixCode.ParseFlat | P2PAuthLogin.cpp:173-219 | A code whose heads can be read off reads off whole strings |
| PrefixCode.FlatParse | P2PAuthLogin.cpp:344-396 | And what is read off is what was written |
| Wildcard.IsMapped | P2Peer.cpp:563-604 | The loop decides the relation of its own acceptance, which for a pattern not ending in two stars is the wildcard relation; it terminates on pattern after the last star and text left |
| Wildcard.DecidesExactlyWhen | P2Peer.cpp:563-604 | Over all texts the matcher decides the wildcard relation if and only if the pattern does not end in two stars, or has a digit run followed by another digit token and so matches nothing |
| Wildcard.AcceptsIsMatches | P2Peer.cpp:600-601 | Stopping when the text runs out costs nothing unless two stars are left |
| Wildcard.StarStep | P2Peer.cpp:578-582 | Forgetting every star but the last loses no match |
| Wildcard.TokenMonotone | P2Peer.cpp:575-596 | A later start of a token never ends earlier, the digit run included, which is why the last star is enough |
| Wildcard.Attempt | P2Peer.cpp:572-599 | One attempt from the last star, and why it stopped |
| TextStore.Tokenise | P2PIdentityStore.cpp:759-776 | The loop gives the tokens of the line, at most the number asked for, up to a comment |
| TextStore.ForEachLine | P2PIdentityStore.cpp:778-802 | The loop reads every line once and fails on the first bad or overlong one |
| TextStore.LoadAppended | P2PIdentityStore.cpp:778-802 | For every text, with or without a final newline, loading after one line is appended gives the old entries and what that line reads as |
| TextStore.AllowAppendThenLoad | P2PIdentityStore.cpp:1080-1157 | Loading after an allow-list append gives the old entries and exactly the new identity and keys |
| TextStore.RevokedAppendThenLoad | P2PIdentityStore.cpp:1214-1296 | Loading after a revocation append gives the old entries and exactly the new point and stamp if and only if the line is within 4096 octets; past it the whole file is refused |
| TextStore.LongReasonSpoilsFile | P2PIdentityStore.cpp:1246-1296 | A reason of 4096 letters appended to any file makes it unreadable |
| TextStore.ShortReasonFits | P2PIdentityStore.cpp:1246-1296 | A reason of up to 3900 octets keeps the line within the limit |
| TextStore.LoadedPoints | P2PIdentityStore.cpp:1214-1243 | Every loaded point is 64 octets |
| TextStore.HexRoundTrip | P2PIdentityStore.cpp:165-201 | Hexadecimal decoding after encoding is the identity |
| TextStore.HexEncode | P2PIdentityStore.cpp:165-187 | The loop gives the hexadecimal form |
| TextStore.HexDecodeExact | P2PIdentityStore.cpp:189-201 | Accepts exactly twice the number of digits, of either case |
| TextStore.EpochRoundTrip | P2PIdentityStore.cpp:215-235 | A decimal stamp within 64 bits reads back as itself and has at most 19 digits |
| TextStore.ParseEpoch | P2PIdentityStore.cpp:215-235 | The loop accepts 1 to 19 decimal digits and gives their value |
| TextFiles.TextFile.AppendAllowList | P2PIdentityStore.cpp:1112-1157 | Refused exactly when the identity is empty, too long or not one token; else the file gains the entry's line or is untouched |
| TextFiles.TextFile.AppendRevocationList | P2PIdentityStore.cpp:1246-1296 | Refused exactly for a negative stamp; else the file gains the entry's line or is untouched |
| TextFiles.TextFile.AppendLine | P2PIdentityStore.cpp:1126-1157 | Read whole, closed by a newline when it was not, and replaced whole |
| TextFiles.TextFile.LoadEntries | P2PIdentityStore.cpp:1072-1110 | All entries of the file, or none |
| TextFiles.FirstAllowed | P2PIdentityStore.cpp:1128-1157 | A file begun by the first append holds that entry alone, the program's heading none |
| TextFiles.FirstRevoked | P2PIdentityStore.cpp:1256-1296 | The same for the revocation list, if and only if the line is within the limit |
| KeyContainer.ParseContainer | P2PIdentityStore.cpp:716-750 | Accepts a file under a kind if and only if it is the container of the protection and payload returned |
| KeyContainer.BuildContainer | P2PIdentityStore.cpp:696-714 | The container, for every payload of 1 octet up to the limit |
| KeyContainer.ContainerInjective | P2PIdentityStore.cpp:696-750 | One file is the container of one kind, protection and payload |
| CreateOnce.OneKeyForAll | P2PIdentityStore.cpp:874-895 | In every interleaving of any number of processes all that succeed hold the one key in the file, and at most one reports having created it |
| CreateOnce.FileNeverChanges | P2PIdentityStore.cpp:477-512 | Once there, the file never changes |
| CreateOnce.StepKeeps | P2PIdentityStore.cpp:810-895 | The invariant every load, generate, exclusive create and reload keeps |
| Dmx.Interleave | P2PeerConDmx.cpp:117-938 | From an empty transport, in every interleaving of steps on connections made or spawned along the way, the pairs are a symmetric matching without self-pairs, no live pointer or list entry names a freed connection, no connection is the peer of two others, and no latch is answered twice |
| Dmx.Transport.Listen | P2PeerConDmx.cpp:561-593 | A connection is registered at most once |
| Dmx.Transport.Accept | P2PeerConDmx.cpp:615-660 | Arming is refused exactly while a client is attached or an accept exists |
| Dmx.Transport.Connect | P2PeerConDmx.cpp:874-938 | Latches exactly when the first service of that name is armed, not queued and unattached; then both pointers are set and nothing else changes |
| Dmx.Transport.Latch | P2PeerConDmx.cpp:914-938 | The stores of a latch keep every invariant |
| Dmx.Transport.Refuse | P2PeerConDmx.cpp:723-766 | The client is detached, and its connect posted as failed exactly when it is at rest and its hub is not tearing it down |
| Dmx.Transport.AcceptSpawn | P2PeerConDmx.cpp:250-287 | The service's client becomes the child's, and the service is free |
| Dmx.Transport.Answer | P2PeerConDmx.cpp:837-862 | The child completes its client's connect at most once |
| Dmx.Transport.BreakPair | P2PeerConDmx.cpp:450-475 | Both back-pointers are cleared and nothing else of the peer's is touched |
| Dmx.Transport.BaseDrop | P2PeerConDmx.cpp:489-544 | Completions at rest are reclaimed |
| Dmx.Transport.BeginDestroy | P2PeerConDmx.cpp:117-121 | The destructor has broken the pair; from here it is out of every client's reach when no accept is armed or it is not in the list |
| Dmx.Transport.EndDestroy | P2PeerConDmx.cpp:117-136 | After the removal from the list every invariant holds if and only if no client latched in between |
| Dmx.Transport.DestructorSafeExactlyWhen | P2PeerConDmx.cpp:117-136 | Against a client that tries to latch in between, the destructor keeps every invariant if and only if no accept is armed as it begins or the client's name finds another service; otherwise a live client points at freed memory |
| Dmx.DanglingRun | P2PeerConDmx.cpp:117-136 | The failing input of the destructor, from an empty transport |
| Dmx.Transport.Rendezvous | P2PeerConDmx.cpp:874-938 | A client that finds an armed service is met by a child, its connect completed once and in success, and the service can be armed again |
| Dmx.MeetingRun | P2PeerConDmx.cpp:250-938 | From an empty transport a service and a client meet, with exactly one post |
| Hkdf.HkdfSha256 | P2PCngCrypto.cpp:146-187 | Succeeds exactly when the output of the standard exists, and writes exactly that output |
| Hkdf.OkmExists | P2PCngCrypto.cpp:146-187 | With an HMAC that never fails the output exists if and only if its length is at most 255 * 32 |
| Hkdf.ShorterIsPrefix | P2PCngCrypto.cpp:163-182 | A shorter output is the front of a longer one |

## Left out

- The primitives themselves: ECDSA, ECDH, AES-GCM, SHA-256, HMAC, DPAPI, DER, the CNG and OpenSSL handles, and constant-time comparison.
- The inside of `p2pseal::Open` and `p2pseal::SealTo`: opening is a function of keys, addresses, block and room; sealing ends where the reader set is handed on.
- File permissions, `fsync`, temporary names and the Windows and POSIX calls behind an atomic replace and an exclusive create.
- A signing that fails: the program's buffer is then partly written, the model's is untouched; the result code is the same.
- AuthPolicies.AuthPolicy.SetIdentity: the loading of the key file is a parameter, because the container and the create race are modelled on their own.
- AuthPolicies.AuthPolicy.SetAgreement: as for the identity.
- AuthPolicies.AuthPolicy.SetRevocationList: an allocation failure of the path is not modelled.
- AuthPolicies.AuthPolicy.Seal: gives the readers handed on, not the sealed octets.
- AuthPolicies.AuthPolicy.NoNonceAcceptedTwice: assumes of the whole log that no nonce is signed with two stamps, which the code cannot make a listed peer keep; `NonceTwiceIsTwoSignings` and `NonceRefusedExactly` do without.
- AuthPolicies.AuthPolicy.ReceiveAll: promises the union only for runs in which no append failed, which is what a hub that keeps its list on disk can promise.
- Changing the login or seal window on a live object: the run theorems hold for fixed windows.
- Dmx.Interleave: begins no destructor of a listed service with an accept armed, the case in which the invariants are lost.
- Dmx.Transport.Connect: is one try of the rendezvous; the retry for 100 ms repeats it.
- Dmx.Transport.BaseDrop: models what the drop does to completions and the port flag, not the notification it posts.
- Dmx.Transport.AcceptSpawn: the receive and send completions of the child are not modelled, and `m_hFile` is not, since nothing here reads it.
- Dmx.Transport.Answer: assumes one `OnAccept(addr)` for each child.
- CreateOnce.OneKeyForAll: works on values, one atomic file operation at a time, because it is about processes and not about one object's fields.
- TextStore.ParseEpoch: the value of 19 digits past the 64-bit range is the mathematical one; the program would overflow.
- Link policy, trust floor, `Arm`, result texts and the plain switches: short branches over fields.
- `P2Padomain` and its enumeration of several sets: the packing of its counters leaves the intended meaning open.
- `P2Paddr` name parts, `IsChild` and `IsRable`: easy members.
- Completion ports, pumps, timers, the serial, pipe and socket transports: plumbing around the parts modelled here.
- Self-tests, buffer wiping of keys, and timing.
