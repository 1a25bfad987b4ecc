# Verification of the panel's key generator, client ledger and limits

This project models four parts of the panel and proves what they are for.

1. **The X25519 key generator** of `web/assets/js/util/index.js`: arithmetic modulo 2^255 - 19 on
   sixteen limbs in `Float64Array`s, the Montgomery ladder, canonical packing, Base64 of keys, and the
   Base32 secret generator beside it. Main result: for every private key, the 32 octets that
   `generatePublicKey` returns are X25519(key, 9) as section 5 of RFC 7748 defines it; in plain integers,
   they encode x z^(p-2) modulo p for the point (x : z) that Montgomery's ladder of doublings and
   differential additions reaches from u = 9 with a scalar 2^254 + 8m, m < 2^251.
2. **The client ledger** of `web/service/inbound.go`: clients are stored twice, in an inbound's settings
   and as rows of `client_traffics`. Main results: over every run of requests, ticks, resets and
   clean-ups (the last under a condition that is proved exact) the two copies name the same emails, no
   two inbounds clash, counters are conserved, and a client and its row expire together if and
   only if no inbound update edits the expiry of a client that stays.
3. **The device limit** of `web/job/check_client_ip_job.go`. Main results: the map of active addresses
   refines the history of all sightings; and over every run of passes, reloads, removals and restarts,
   with any calls failing, three properties hold exactly as long as no event of a given kind occurs: a
   marked user does not have its original credential in the core, an enabled unmarked one does, and a
   disabled one does not. In a run without such an event, after a pass whose calls succeed a user has
   the original credential if and only if it is enabled and the history shows no more addresses than its
   limit. Of random credentials it is assumed only that they differ from the originals.
4. **The generated configuration** of `web/service/xray.go` and **the statistics** of `xray/api.go`:
   which clients are emitted with which speed level, and that one tick adds to the ledger exactly the
   traffic that the core reported.

## How it is built

| file | contents |
|---|---|
| `Arith`, `JsNumber` | powers of two and division; doubles as integers that are proved to stay within 2^53, and JavaScript's operators on int32 in two's complement |
| `Options` | a value that may be missing |
| `Field25519`, `X25519` | integers modulo p; the definitions of section 5 of RFC 7748 with its deferred swap |
| `Montgomery` | what these definitions mean in plain integers: the clamped scalar, doubling and addition on the curve, the textbook ladder |
| `Limbs`, `WireguardField`, `WireguardPack`, `Wireguard` | limb vectors; the class `Wireguard`, method by method on arrays changed in place |
| `Rfc4648`, `KeyBase64`, `RandomUtil` | Base 64 and Base 32 as one stream of bits, from sections 4 and 6 of RFC 4648, with their decoders and what their characters mean as digits; the program's encoders |
| `Panel`, `Ledger`, `InboundService` | the tables; every request as a function, with the invariant; the class whose methods compute these functions step by step |
| `RequestFields` | what every request refuses and stores, column by column, in addresses, letters, keys and numbers alone |
| `Traffic`, `TrafficService`, `PanelRuns` | one tick as a function; the methods behind `AddTraffic`; whole histories |
| `TickFields` | what a tick does to every column of a row and of an inbound, in numbers alone |
| `XrayStats`, `Depleted` | aggregation and conservation; `DelDepletedClients` |
| `ActiveIps`, `DeviceLimit` | the device-limit job |
| `LimitFields` | the same by the marks, the users of the core and the number of addresses alone |
| `XrayConfig` | the configuration |
| `Counterexamples` | inputs at which the code does not meet a property |

Each method of the program is a Dafny method on arrays or on the fields of an object, proved equal to a
function of its inputs or of the old state; the properties are lemmas about these functions and hold for
all inputs. What the functions themselves mean is stated once more in the fields of the tables and in
numbers, without the functions' own notions: in `Montgomery`, `RequestFields`, `TickFields` and
`LimitFields`, and in lemmas named `...Fields` beside the definitions. `Float` marks every place where the program forms a double, and its precondition is the proof
that the value is exact. A limb vector is in carried form when limb 0 lies in [-38, 65573] and the other
limbs are digits; this is what two carries produce, and sums and differences of two such vectors are
again accepted by a multiplication.

A request may be refused; the outcome says why. Not checked by the program, and therefore a condition of
the runs (`Ledger.Allowed`): no client key twice in an inbound, no email of an *updated* inbound twice or
in another inbound, and the tag is the one the controller derives.

## Findings

Each is a property that the code does not always meet, with the condition under which it does.

- `DelDepletedClients` deletes an inbound through another connection than the transaction that saves the
  others. Once a group is saved, the transaction holds SQLite's write lock, the deletion fails, and its
  error is dropped: the inbound stays with clients that have no rows. The clean-up is right if and only if
  no inbound to be deleted comes after one that is saved (`Depleted.CleanUpIff`, `Depleted.AgreementIff`);
  naming one inbound is enough (`Depleted.OneInboundIsSafe`), and for -1 it holds in every order if and
  only if all inbounds with depleted rows are deleted or none is (`Depleted.AnyOrderIff`).
  `Counterexamples.LockedOutDeletion` is the smallest failure.
- `DelDepletedClients` splits concatenated emails at commas, which gives the emails back exactly when none
  of them has a comma (`Depleted.SplitJoinIff`).
- A ban of which the second call alone fails leaves an enabled user unmarked and out of the core, as does a
  removal that does not disable its client. Enabled unmarked users always have their credential if and
  only if neither happens (`DeviceLimit.RunServesIff`), and no pass repairs it within the limit
  (`DeviceLimit.NothingIsRepaired`, `DeviceLimit.TwoPassLockout`).
- Original credentials are put into the core while the marks stay: by a restart, an update of an inbound or
  of a client, a renewal and a reset of a client's traffic. Marked users stay without theirs if and only
  if no such event hits one and no empty credential is banned, which `UpdateInbound` lets in
  (`DeviceLimit.RunIsSafeIff`, `DeviceLimit.RestartIsSafeIff`, `DeviceLimit.EmptyCredentialBan`); a ban
  lost so is not made again while the count stays over the limit (`DeviceLimit.NothingIsRepaired`).
- An unban does not ask whether the client is enabled: a marked user that a tick has disabled and removed
  has its original credential back after the next pass within the limit (`DeviceLimit.UnbanReadmits`),
  and later ticks do not remove it (`Traffic.DisabledIsNotRemoved`). An update of an inbound loads
  disabled clients as well. Disabled clients stay out if and only if no unban of one completes, no reload
  brings one, and disabling one never fails to remove it (`DeviceLimit.RunBarsIff`; a ban of an empty
  credential counts too).
- Inbounds and outbounds share one statistics entry per tag. An inbound counts its own traffic, in every
  order of the statistics, if and only if no outbound has its tag (`XrayStats.OwnReportIff`,
  `XrayStats.InboundTrafficIff`). With a shared tag, the outbound's values stand for the inbound's when
  they come last, and the inbound counts nothing when they come first (`XrayStats.SharedTagMixes`,
  `XrayStats.InboundCounts`).
- The first-gap scan returns a taken id if and only if 1 is taken and an id below 1 hides it
  (`Ledger.NextIdFree`); the runs never create such ids.
- `AddInbound` and `UpdateInbound` create a row for a client with an empty email; the other requests do not
  (`Ledger.AddInboundEmptyEmail`, `Ledger.UpdateInboundEmptyEmail`, `Ledger.OthersAddNoEmptyEmail`). An
  allowed update fails in the database if and only if such clients repeat a key
  (`Ledger.UpdateInboundKeeps`, `Counterexamples.TwoNameless`).
- `DelInboundClient` drops every client with the key but only the row of the last of them
  (`Ledger.DelClientAgreesIff`, `Counterexamples.SharedKeyDeletion`).
- `UpdateInbound` does not refresh rows that stay, so expiries go apart exactly when a staying client's
  expiry is edited (`PanelRuns.UpdateInboundExpiriesIff`, `Counterexamples.EditedExpiry`).
- `UpdateInbound` commits the changed rows even when saving the inbound fails on a taken tag; the model
  keeps this branch, and `Ledger.TagIsFree` shows that no allowed run reaches it.
- A negative speed limit becomes a level without a policy (`XrayConfig.OwnLimitHasPolicyIff`,
  `XrayConfig.LevelsHavePolicies`, `Counterexamples.NegativeLimit`).
- `GetXrayConfig` emits the tables that it loaded before its own tick. They are those left behind if and
  only if no enabled inbound is spent and no row of its clients is about to be switched
  (`XrayConfig.SnapshotIsCurrentIff`, `Counterexamples.StaleSnapshot`); directly after a tick that is so
  (`XrayConfig.SnapshotIsCurrent`).
- A renewed expiry may equal the current time. A row that a tick finds due is disabled by the same tick if
  and only if whole periods have passed to the millisecond (`Traffic.RenewedIsDisabledIff`,
  `Counterexamples.RenewedAndDisabled`); a further tick at that time changes nothing (`Traffic.TickSettles`).
- For a key longer than 32 octets the Base64 text is that of its first 32 if and only if the next octet is
  below 64 (`KeyBase64.KeyToBase64`); the callers pass 32.

## Model

| member | source | states |
|---|---|---|
| Wireguard.GeneratePublicKey | web/assets/js/util/index.js:450-492 | for a key of any length the result is X25519 (RFC 7748, section 5) of the 32 octets read from it and the base point; all values stay exact on the way |
| Wireguard.LadderBody | web/assets/js/util/index.js:467-484 | between the swaps, a, c, b, d become x_2, z_2, x_3, z_3 of the RFC's formulas, and all four are in carried form again |
| Wireguard.LadderProducts | web/assets/js/util/index.js:467-474 | the first eight operations, several in place, leave AA, BB, CB and DA |
| Wireguard.LadderCombine | web/assets/js/util/index.js:475-484 | the other ten operations turn them into the four new coordinates, the base u = 9 entering by a constant |
| Wireguard.FormulasCommute | web/assets/js/util/index.js:475-484 | the program's order of factors and its reversed difference give the RFC's field elements |
| Wireguard.SwapBeforeAndAfter | web/assets/js/util/index.js:465-486 | swapping by the same bit before and after a step refines the RFC's swap that is deferred to the next step |
| Wireguard.RunLadder | web/assets/js/util/index.js:463-487 | after all 255 bits the arrays hold the RFC's final ladder state, its pending swap carried out |
| Wireguard.KeyBit | web/assets/js/util/index.js:464 | the shifts and masks read bit i of the little-endian scalar |
| Wireguard.DivideAndPack | web/assets/js/util/index.js:488-490 | the result is the encoding of x_2 * z_2^(p-2) |
| Wireguard.Clamp | web/assets/js/util/index.js:445-448 | the octets become the clamped octets of decodeScalar25519, whose number `Montgomery.ScalarIsClamped` gives |
| Wireguard.Gf | web/assets/js/util/index.js:358-365 | sixteen limbs with the value of the given ones, zero beyond them |
| X25519.EncodingIsCanonical | web/assets/js/util/index.js:385-388 | encodings are 32 octets, decode to the representative below p, and agree exactly for congruent coordinates |
| X25519.BitOfOctets | web/assets/js/util/index.js:464 | bit t of the integer is bit t mod 8 of octet t div 8 |
| X25519.BasePointIsNine | web/assets/js/util/index.js:453-460 | the base point's coordinate is the 9 that the ladder starts from |
| Montgomery.ScalarIsClamped | web/assets/js/util/index.js:445-448 | for every key of 32 octets the scalar is 2^254 plus the key's low 254 bits, rounded down to a multiple of 8 |
| Montgomery.ScalarRange | web/assets/js/util/index.js:445-448 | it is 2^254 + 8m with m below 2^251 |
| Montgomery.CoordinateIs | web/assets/js/util/index.js:453-460 | decoding a coordinate masks its top bit and nothing else |
| Montgomery.FormulasDoubleAndAdd | web/assets/js/util/index.js:467-484 | one step of the formulas is a doubling and a differential addition on the curve with A = 486662 |
| Montgomery.LadderClimbs | web/assets/js/util/index.js:463-487 | the ladder with the deferred swap holds, at every bit, the pair of points of the textbook ladder |
| Montgomery.PublicKeyIs | web/assets/js/util/index.js:450-492 | the 32 octets of the public key are the number x z^(p-2) mod p for the textbook ladder's point (x : z), scalar 2^254 + 8m, coordinate 9 |
| WireguardField.Carry | web/assets/js/util/index.js:391-397 | for limbs up to 2^52, exactly: the value drops by a multiple of 2p, the quotient by 2^256, and the limbs become digits but for what comes back into limb 0 |
| WireguardField.CarryTwice | web/assets/js/util/index.js:428-429 | two carries leave the carried form and the same field element |
| WireguardField.CSwapLimbs | web/assets/js/util/index.js:399-406 | swaps for b = 1 and keeps for b = 0; no limb is truncated |
| WireguardField.Add | web/assets/js/util/index.js:408-411 | limbwise sums under any aliasing, without truncation; of carried operands they are factors for a multiplication |
| WireguardField.Subtract | web/assets/js/util/index.js:413-416 | limbwise differences under any aliasing, without truncation |
| WireguardField.MultMod | web/assets/js/util/index.js:418-430 | the product modulo p in carried form, under any aliasing, for operand limbs up to 2^18 |
| WireguardField.Schoolbook | web/assets/js/util/index.js:420-423 | 31 exact limbs whose value is the product, each a sum of at most sixteen limb products |
| WireguardField.Fold | web/assets/js/util/index.js:424-425 | folding by 38 keeps the field element and stays exact |
| WireguardField.Invert | web/assets/js/util/index.js:432-443 | the power p - 2 in carried form, also when input and output are one array |
| WireguardField.RaiseToInverse | web/assets/js/util/index.js:436-440 | squaring and multiplying from bit 253 to 0, skipping 2 and 4, raises to p - 2 |
| WireguardField.ExponentBits | web/assets/js/util/index.js:436-440 | the bits of 2^255 - 21 are all ones but for bits 2 and 4 |
| WireguardPack.Pack | web/assets/js/util/index.js:367-389 | for limbs up to 2^52 the octets are encodeUCoordinate of the value |
| WireguardPack.CarryThrice | web/assets/js/util/index.js:371-373 | three carries give sixteen digits and keep the field element |
| WireguardPack.ThirdCarryIsExact | web/assets/js/util/index.js:371-373 | after two carries the value lies in 0 .. 2^256 - 1, so the third wraps nothing |
| WireguardPack.Reduce | web/assets/js/util/index.js:374-384 | two conditional subtractions reach the representative below p |
| WireguardPack.SubtractPrime | web/assets/js/util/index.js:375-382 | m is t - p when that is not negative, and b is its borrow |
| WireguardPack.WriteOctets | web/assets/js/util/index.js:385-388 | the digits are written as their little-endian octets |
| JsNumber.MaskedXor | web/assets/js/util/index.js:400-404 | the masked exclusive ors keep or exchange two int32 values |
| JsNumber.BitAndMask | web/assets/js/util/index.js:395 | masking with 2^k - 1 is the remainder modulo 2^k for any integer, negative ones included |
| JsNumber.OperatorsBitByBit | web/assets/js/util/index.js:393-404 | the operators' bits are the conjunction, disjunction and exclusive or of the operands' bits, at every position and for negative numbers too |
| JsNumber.Ranges | web/assets/js/util/index.js:356-404 | doubles are exact to 2^53, operands wrap to 32 bits and stored octets to 8 |
| KeyBase64.KeyToBase64 | web/assets/js/util/index.js:516-523 | for 32 octets the text is their Base 64 of RFC 4648, in spite of the short read at the eleventh group and the store out of range; for a key of any length it is that of the 32 octets read if and only if no octet 32 has its upper two bits set |
| KeyBase64.KeyFromBase64 | web/assets/js/util/index.js:525-532 | what RFC 4648 decodes, or a failure exactly when it rejects the text |
| KeyBase64.EncodeBase64 | web/assets/js/util/index.js:506-513 | stores the four characters of three octets, octets beyond the end read as 0, and changes nothing else |
| KeyBase64.CodeOfIsAlphabet | web/assets/js/util/index.js:508-512 | the branch-free code is the alphabet's character for all 64 sextets |
| KeyBase64.InputIsSextets | web/assets/js/util/index.js:507 | the four shifted and masked values are the sextets of three octets |
| KeyBase64.SextetsByBlock | web/assets/js/util/index.js:518-520 | group j of the bit stream is sextet j mod 4 of the block at octet 3 (j div 4) |
| Rfc4648.Base64RoundTrip | web/assets/js/util/index.js:525-532 | decoding undoes the Base 64 encoding, for all octet strings |
| Rfc4648.Base32RoundTrip | web/assets/js/util/index.js:171-196 | unpadded Base 32 has ceil(8n/5) characters and decodes to its octets |
| Rfc4648.Alphabet64Is | web/assets/js/util/index.js:508-512 | the 64 characters in their order |
| Rfc4648.Base64Characters | web/assets/js/util/index.js:516-523 | one character of the alphabet for every sextet, and padding to a multiple of four |
| Rfc4648.SextetsAreDigits | web/assets/js/util/index.js:506-513 | the sextets are the digits in base 64 of the octets' big-endian number, moved up to whole sextets |
| Rfc4648.DecodesIff | web/assets/js/util/index.js:525-532 | a text is decoded if and only if it has a multiple of four characters, all of the alphabet but for at most two padding characters at its end |
| Rfc4648.Alphabet32Is | web/assets/js/util/index.js:176 | the 32 characters in their order |
| Rfc4648.Base32Characters | web/assets/js/util/index.js:171-196 | one character of the alphabet for every quintet |
| Rfc4648.QuintetsAreDigits | web/assets/js/util/index.js:171-196 | the quintets are the digits in base 32 of the octets' number |
| RandomUtil.RandomBase32String | web/assets/js/util/index.js:171-196 | for every octet string the text is its unpadded Base 32 |
| RandomUtil.Register | web/assets/js/util/index.js:182 | the overflowing register keeps the pending bits and takes in the octet |
| RandomUtil.TakeGroup | web/assets/js/util/index.js:185-188 | each character written is the next group of five bits of the stream |
| Panel.TagsDiffer | web/controller/inbound.go:103-107 | addresses with the same derived tag clash |
| Panel.DecimalIsNumeral | web/controller/inbound.go:103-107 | the text of a number has a sign if it is negative, no leading zero, and reads as the number in base ten |
| RequestFields.TagOfPort | web/controller/inbound.go:103-107 | the tag is `inbound-`, the address and a colon unless it stands for all interfaces, and the digits of the port |
| Ledger.RunKeepsInv | web/service/inbound.go:168-957 | over every run of requests: ports, ids and tags in order, distinct keys and emails, equal email sets in settings and rows, no row without its inbound |
| Ledger.RunHasNoClash | web/service/inbound.go:55-83 | after every run no two inbounds clash on port and address, and tags are pairwise distinct |
| RequestFields.RunHasNoSharedAddress | web/service/inbound.go:55-83 | after every run two inbounds have different ports, or different addresses neither of which stands for all |
| Ledger.AddInboundKeeps | web/service/inbound.go:168-291 | keeps the invariant, stores under a free id, and never fails in the database |
| RequestFields.SameLettersIff | web/service/inbound.go:113-121 | emails are the same exactly when they differ in the case of ASCII letters only |
| RequestFields.AddInboundRefuses | web/service/inbound.go:168-233 | refused exactly for an occupied port, an email in use or repeated, or a client whose password, email or id, by protocol, is empty, in this order; a refusal changes nothing |
| RequestFields.AddInboundStores | web/service/inbound.go:239-291 | the least unused id from 1 on, the inbound unchanged, and for every client with an email an enabled row with zero counters and the client's total, expiry and reset |
| Ledger.DelInboundKeeps | web/service/inbound.go:317-358 | keeps the invariant and leaves no row for the id, which may be reused |
| RequestFields.DelInboundStores | web/service/inbound.go:317-358 | exactly the inbound and the rows with its id go |
| Ledger.UpdateInboundKeeps | web/service/inbound.go:370-507 | keeps the invariant; fails in the database, and then changes nothing, if and only if the inbound had no client without an email and the new ones repeat the key of such a row |
| RequestFields.UpdateInboundRefuses | web/service/inbound.go:370-382 | refused exactly for a port that another inbound occupies or a missing id; nothing but a done update changes anything |
| RequestFields.UpdateInboundStores | web/service/inbound.go:462-482 | every field comes from the request but all_time, which stays, and the tag, which is derived |
| RequestFields.UpdateInboundRows | web/service/inbound.go:509-552 | the inbound's rows are those of its new emails; rows that stay are not touched, and new ones carry the client's total, expiry and reset |
| Ledger.AllNewIff | web/service/inbound.go:536-551 | of the clients that an update adds only those without an email can repeat a key |
| Counterexamples.TwoNameless | web/service/inbound.go:536-551 | an allowed update with two clients without an email fails in the database |
| Ledger.UpdatedRows | web/service/inbound.go:509-552 | afterwards the inbound has rows for its new emails, other rows are as before, and kept rows are untouched |
| Ledger.AddClientsKeeps | web/service/inbound.go:554-683 | keeps the invariant |
| RequestFields.AddClientsRefuses | web/service/inbound.go:584-613 | refused exactly for an email in use or repeated, a missing inbound, or an empty key by protocol |
| RequestFields.AddClientsStores | web/service/inbound.go:621-682 | the clients come after the old ones in order, each with an email gets a new row of its total, expiry and reset, and nothing else changes |
| Ledger.DelClientKeeps | web/service/inbound.go:685-771 | keeps the invariant and never fails in the database |
| RequestFields.DelClientRefuses | web/service/inbound.go:685-722 | refused exactly for a missing inbound or when no client with another key would remain |
| RequestFields.DelClientStores | web/service/inbound.go:706-771 | the client with the key is cut out of the list, and exactly its row goes |
| RequestFields.DelNobody | web/service/inbound.go:706-730 | a key that no client has changes nothing |
| Ledger.UpdateClientKeeps | web/service/inbound.go:773-957 | keeps the invariant and never fails in the database |
| RequestFields.UpdateClientRefuses | web/service/inbound.go:787-833 | refused exactly for a missing inbound, an empty new key or an unknown old one, or a changed email in use |
| RequestFields.UpdateClientStores | web/service/inbound.go:866-957 | the client is replaced in its place, and no row but those of its old and new email changes |
| RequestFields.UpdateClientRow | web/service/inbound.go:1344-1371 | the row under the new email is enabled and has the client's total, expiry and reset, with the counters of the old email's row, or zeros if there was no old email |
| Ledger.KeptRowsKeepCounters | web/service/inbound.go:1344-1379 | on any tables, no request changes the counters of a row that stays |
| Ledger.RenamedRowKeepsCounters | web/service/inbound.go:1359-1371 | a renamed client's row is under the new email with its counters, and no longer under the old |
| Ledger.NextIdFree | web/service/inbound.go:246-263 | the assigned id is taken if and only if an id below 1 exists and 1 is taken; else it is the least free positive id |
| Ledger.TagIsFree | web/service/inbound.go:478-482 | while no inbounds clash, a free address derives a free tag |
| Ledger.NoClash | web/service/inbound.go:123-141 | clients that pass the duplicate check have no email twice and none that any inbound has |
| Ledger.AddInboundEmptyEmail | web/service/inbound.go:284-288 | a row for the empty email appears if and only if a client has no email |
| Ledger.UpdateInboundEmptyEmail | web/service/inbound.go:536-551 | exactly when the inbound has a row for the empty email after an update |
| Ledger.OthersAddNoEmptyEmail | web/service/inbound.go:554-957 | no other request creates such a row |
| Ledger.DelClientAgreesIff | web/service/inbound.go:705-738 | the email sets still agree if and only if no other client with the key has another email |
| Counterexamples.SharedKeyDeletion | web/service/inbound.go:705-738 | deleting by a shared key drops two clients and one row |
| InboundServices.InboundService.CheckPortExist | web/service/inbound.go:55-83 | true exactly when another inbound has the port on the same or a wildcard address |
| InboundServices.InboundService.CheckEmailsExist | web/service/inbound.go:123-141 | reports an email exactly when one is in use or repeated, ignoring case |
| InboundServices.InboundService.NextFreeId | web/service/inbound.go:239-263 | the scan of the sorted ids returns the id of the first gap |
| InboundServices.InboundService.AddInbound | web/service/inbound.go:168-315 | the tables and the outcome are those of the request's function, error branches included |
| InboundServices.InboundService.DelInbound | web/service/inbound.go:317-358 | likewise; rows go even when the inbound is missing |
| InboundServices.InboundService.UpdateInbound | web/service/inbound.go:370-507 | likewise; `allTime` is kept, rows roll back only when their update fails |
| InboundServices.InboundService.UpdateClientTraffics | web/service/inbound.go:509-552 | drops the rows of gone emails and inserts new ones, or fails exactly when an insert would repeat a key |
| InboundServices.InboundService.AddInboundClient | web/service/inbound.go:554-683 | likewise; only clients with an email get a row |
| InboundServices.InboundService.DelInboundClient | web/service/inbound.go:685-771 | likewise; refused when no client would remain |
| InboundServices.InboundService.UpdateInboundClient | web/service/inbound.go:773-957 | likewise; the first client with the key is replaced and its row follows, with the columns that `RequestFields.UpdateClientRow` gives |
| InboundServices.InboundService.AddClientStat | web/service/inbound.go:1344-1357 | inserts a zero row unless the index has the key |
| InboundServices.InboundService.UpdateClientStat | web/service/inbound.go:1359-1371 | moves the row to the new email, enabled, with the client's total, expiry and reset and the old counters, unless that email has one |
| PanelRuns.HistoryKeepsConsistent | web/service/inbound.go:168-1952 | over every history of requests, ticks, resets and clean-ups: the ledger's invariant, rows with emails only, and up + down at most all_time |
| RequestFields.HistoryFields | web/service/inbound.go:168-1952 | after every history a row exists exactly for each client with an email, no email occurs twice, up + down is at most all_time; and unless an inbound update edits the expiry of a client that stays, each client's row has its expiry |
| PanelRuns.HistoryKeepsExpiriesIff | web/service/inbound.go:509-1224 | over every history clients and rows expire together after each event, if and only if no inbound update in it edits the expiry of a client that stays |
| PanelRuns.HistoryKeepsExpiries | web/service/inbound.go:1087-1224 | over every history without such an update they expire together at its end |
| PanelRuns.UpdateInboundExpiriesIff | web/service/inbound.go:509-552 | an inbound update keeps that agreement if and only if no staying client's expiry differs from its row's |
| Counterexamples.EditedExpiry | web/service/inbound.go:509-552 | an update that moves a client's expiry leaves its row with the old one |
| Traffic.TickKeepsExpiries | web/service/inbound.go:1087-1224 | a tick keeps the two copies of every expiry equal, whatever is reported and when |
| Traffic.TickStarts | web/service/inbound.go:1108-1118 | on first reported traffic both copies of a duration are now plus the duration after the tick |
| Traffic.TickRenews | web/service/inbound.go:1145-1224 | after a tick both copies of a due renewal are the least time from now on that is whole periods away |
| Traffic.BumpIsLeast | web/service/inbound.go:1184-1187 | the loop over periods ends at the least time from now on that is whole periods away; it may be now |
| Traffic.RenewedIsDisabledIff | web/service/inbound.go:1275-1319 | a due row ends the tick disabled if and only if whole periods have passed exactly |
| Counterexamples.RenewedAndDisabled | web/service/inbound.go:1145-1319 | clean tables with a daily client one day after its expiry: one tick renews client and row and disables the row |
| Traffic.DisabledIsNotRemoved | web/service/inbound.go:1275-1295 | a tick does not select a disabled row for removal from the core, unless it has renewed it |
| Traffic.NoneSpentAfterTick | web/service/inbound.go:1241-1319 | after a tick no enabled row or inbound is over quota or expired |
| Traffic.TickSettles | web/service/inbound.go:959-1001 | a further tick without reports at the same time changes nothing |
| Traffic.TickKeepsCounters | web/service/inbound.go:1057-1072 | a tick keeps up + down at most all_time in every row |
| Traffic.TickAllTime | web/service/inbound.go:1057-1072 | a row's all_time grows by what is reported for its email and by nothing else |
| Traffic.TickUpDown | web/service/inbound.go:1145-1197 | the counters grow by the report, or start at zero exactly when the row is renewed |
| Traffic.TickShape | web/service/inbound.go:959-1001 | a tick changes no key, email, port, tag or client but for expiries, and no row appears or goes |
| Traffic.ResetKeeps | web/service/inbound.go:1847-1863 | a reset keeps the counters' order and the expiries |
| TrafficService.AddTraffic | web/service/inbound.go:959-1001 | on any tables no row and no inbound stays enabled whose up + down reaches a positive total or whose positive expiry is not after now; on clean tables the result is exactly the tick, and exactly the clients whose rows it disables are selected for removal |
| TickFields.TickRow | web/service/inbound.go:959-1001 | every column of a row after a tick, from those before, the first report of its email and the time: started, counted, renewed on its grid of days with zero counters, or disabled by quota or expiry |
| TickFields.TickRemoves | web/service/inbound.go:1275-1295 | removed from the core are exactly the clients whose rows the tick leaves disabled and that were enabled or renewed |
| TickFields.TickClients | web/service/inbound.go:1087-1224 | a client changes in its expiry only, which is its row's |
| TickFields.TickInbound | web/service/inbound.go:1003-1024 | every column of an inbound after a tick, from those before, the report of its tag and the time |
| TickFields.ResetFields | web/service/inbound.go:1771-1863 | a reset row is enabled with zero counters and keeps its lifetime total, quota, expiry and period; others are kept |
| TrafficService.AddInboundTraffic | web/service/inbound.go:1003-1024 | every inbound counts the reports of its tag, others nothing |
| TrafficService.AddClientTraffic | web/service/inbound.go:1026-1085 | rows without a report are untouched on any tables; on clean tables durations start and then the reports are counted |
| TrafficService.AdjustTraffics | web/service/inbound.go:1087-1143 | on clean tables the started expiries, in settings and rows |
| TrafficService.AutoRenewClients | web/service/inbound.go:1145-1224 | on clean tables exactly the due rows and their clients are renewed; the loop over periods ends |
| TrafficService.DisableInvalidClients | web/service/inbound.go:1275-1319 | a row stays enabled exactly if it was, up + down is below its total or that is not positive, and its expiry is after now or not positive; exactly those that are switched off, of existing inbounds, are selected for removal |
| TrafficService.DisableInvalidInbounds | web/service/inbound.go:1241-1273 | an inbound stays enabled exactly under the same conditions on its own columns, and nothing else changes |
| TrafficService.ResetAllClientTraffics | web/service/inbound.go:1847-1863 | the rows in scope are enabled with zero counters, all_time and the others are kept |
| TrafficService.ResetClientTrafficByEmail | web/service/inbound.go:1771-1783 | the same for the rows of one email |
| XrayStats.GetTraffic | xray/api.go:209-220 | one report per email and per tag but the API's, with the last value of either direction |
| XrayStats.ReportFields | xray/api.go:209-271 | one report for each email that the statistics name; up and down are the values of the last uplink and downlink statistic of it, or 0 |
| XrayStats.TagReportFields | xray/api.go:209-271 | one report for each tag but `api`; its direction is that of the tag's first statistic, up and down the last values of either direction |
| XrayStats.ProcessTraffic | xray/api.go:222-245 | assigns one value of a tag, creating its entry with the first direction |
| XrayStats.ProcessClientTraffic | xray/api.go:248-263 | assigns one value of an email |
| XrayStats.MapToSlice | xray/api.go:265-271 | every value of the map once, in some order |
| XrayStats.TickConserves | web/service/inbound.go:1026-1085 | with unique names and emails, the sum of all_time grows by exactly what the core reported for known emails |
| XrayStats.CleanIsUnique | web/service/inbound.go:123-141 | on clean tables every email has one row |
| XrayStats.OwnReportIff | xray/api.go:222-245 | over all statistics drawn from the names of the inbounds and outbounds, in any order and with any values: the report for an inbound is an inbound's with its own values, if and only if no outbound has its tag |
| XrayStats.InboundTrafficIff | web/service/inbound.go:1003-1024 | under the same condition, and only then, an inbound counts its own statistics, whatever they are |
| XrayStats.InboundCounts | web/service/inbound.go:1011 | an inbound counts the entry of its tag, and nothing when an outbound opened it |
| XrayStats.SharedTagMixes | xray/api.go:228-244 | a shared tag in both orders: the outbound's values in the inbound's report, or an outbound's report |
| Depleted.DelDepletedClients | web/service/inbound.go:1876-1952 | on tables with equal email sets and no commas, for every order of the groups, it succeeds and leaves the tables of the clean-up with its write lock; a failed call adds or changes no inbound |
| Depleted.CleanUpIff | web/service/inbound.go:1927-1943 | the clean-up deletes what it should if and only if no emptied group comes after a saved one |
| Depleted.AgreementIff | web/service/inbound.go:1927-1946 | afterwards settings and rows name the same emails under the same condition, and only then |
| Depleted.OneInboundIsSafe | web/service/inbound.go:1887-1892 | naming one inbound meets the condition |
| Depleted.AnyOrderIff | web/service/inbound.go:1895-1900 | every order meets the condition if and only if all groups are emptied or none is |
| Counterexamples.LockedOutDeletion | web/service/inbound.go:1936-1942 | two inbounds, one saved before the other is to be deleted: the other stays with a client that has no row |
| Depleted.ExactlyDepletedRows | web/service/inbound.go:1946 | a row goes if and only if it is in scope, disabled and without renewal |
| Depleted.ExactlyEmptiedInbounds | web/service/inbound.go:1927-1944 | the inbound of a group goes if and only if all its clients have a depleted row and all groups before it were emptied |
| Depleted.ExactlyRemainingClients | web/service/inbound.go:1912-1926 | a client stays if and only if its row is not depleted or its inbound could not be deleted |
| Depleted.CleanUpFields | web/service/inbound.go:1876-1952 | in the rows' columns: exactly the rows that are disabled, have reset 0 and belong to an inbound in scope go; a group's inbound goes exactly when all clients of it and of the groups before have such rows; inbounds that stay lose exactly the clients with such rows, unless all of theirs have one |
| Depleted.RemainingInOrder | web/service/inbound.go:1912-1926 | the clients that remain keep their order and their number |
| Depleted.DelDepletedKeeps | web/service/inbound.go:1876-1952 | when no deletion is locked out: keeps the ledger's invariant, the counters' order and the agreement of expiries |
| Depleted.SplitJoinIff | web/service/inbound.go:1895-1901 | splitting the concatenated emails gives them back if and only if none has a comma |
| ActiveIps.EveryRunRefines | web/job/check_client_ip_job.go:91-157 | after every completed run, with a clock that does not go back, (email, ip) is in the map exactly when its latest sighting is at most three minutes old, and no email maps to nothing |
| ActiveIps.EntriesAreActive | web/job/check_client_ip_job.go:222 | the entries counted for an email are its active addresses in the history |
| ActiveIps.EntriesAreLines | web/job/check_client_ip_job.go:91-157 | an address is in the map under an email exactly when a pass of the last 180000 ms read an accepted line with both, other than 127.0.0.1 and ::1; its time is that of the last such pass |
| ActiveIps.EveryLineOnce | web/job/check_client_ip_job.go:159-166 | while the log grows, every line is read exactly once |
| ActiveIps.AfterRotation | web/job/check_client_ip_job.go:159-166 | a cut-off log is skipped once and then read from its start |
| ActiveIps.ActiveClients.CleanupExpiredIPs | web/job/check_client_ip_job.go:91-110 | exactly the entries older than three minutes go, then the empty emails |
| ActiveIps.ActiveClients.ParseAccessLog | web/job/check_client_ip_job.go:113-167 | the unread lines are entered with the current time and the position advances or starts again |
| ActiveIps.ActiveClients.Run | web/job/check_client_ip_job.go:74-89 | cleanup, then the log, and nothing while the core does not run |
| DeviceLimit.RunIsSafeIff | web/job/check_client_ip_job.go:170-367 | over every run, with any calls failing: a marked user never has the original credential in the core, if and only if no reload or restart hits a marked user and no ban puts an empty credential back |
| DeviceLimit.RunServesIff | web/job/check_client_ip_job.go:260-333 | over every run: an enabled unmarked user always has the original credential in the core, if and only if no ban over the limit fails with its second call alone and nothing removes a user without disabling it |
| DeviceLimit.RunBarsIff | web/job/check_client_ip_job.go:235-367 | over every run: a disabled client never has the original credential in the core, if and only if no unban of one completes, no ban puts its empty credential back, no reload brings one, and disabling one removes it |
| DeviceLimit.NothingIsRepaired | web/job/check_client_ip_job.go:221-255 | a lockout, a lost ban and a readmission stay through all passes that find the mark in order |
| DeviceLimit.TwoPassLockout | web/job/check_client_ip_job.go:260-333 | a ban whose second call fails and then a clean pass without addresses: the user is locked out |
| DeviceLimit.UnbanReadmits | web/job/check_client_ip_job.go:237-255 | a banned user is disabled and removed; a clean pass puts its original credential back |
| DeviceLimit.EmptyCredentialBan | web/job/check_client_ip_job.go:312-318 | a ban of an empty credential marks the user and leaves it its access |
| DeviceLimit.RunDecides | web/job/check_client_ip_job.go:207-257 | after a pass whose calls for the email succeed, at any point of any run: marked exactly when over the limit; the original credential is in the core exactly when a marked user already had it or it is empty, over the limit, or when the user was marked or had it, within it |
| DeviceLimit.RunEnforces | web/job/check_client_ip_job.go:170-257 | from a right start, in a run without the events that break one of the three properties, after every pass whose calls for the email succeed a user on a limited inbound has the original credential in the core if and only if it is enabled and within its limit, and the mark exactly over it |
| DeviceLimit.BanFollowsHistory | web/job/check_client_ip_job.go:74-257 | the same for one pass, from the log: mark and credential follow the number of addresses in the history of the last three minutes |
| DeviceLimit.RestartIsSafeIff | web/service/xray.go:421-457 | after a restart, which loads the enabled clients, all are safe if and only if no enabled client was marked |
| DeviceLimit.PassDecides | web/job/check_client_ip_job.go:221-234 | one pass whose calls succeed decides the mark and the credential in the core |
| DeviceLimit.CheckDeviceLimitJob.BanUser | web/job/check_client_ip_job.go:260-333 | the user's state after removing and adding it with the random credential, for every outcome of the two calls; nobody else is touched |
| DeviceLimit.CheckDeviceLimitJob.UnbanUser | web/job/check_client_ip_job.go:336-368 | likewise with the original credential, and without the mark |
| DeviceLimit.CheckDeviceLimitJob.CheckAllClientsLimit | web/job/check_client_ip_job.go:170-257 | every known email makes its own step exactly once; nothing happens without the API's port |
| DeviceLimit.PassIsStep | web/job/check_client_ip_job.go:170-257 | the pass of the method is a step of the runs |
| LimitFields.PassFields | web/job/check_client_ip_job.go:207-367 | mark and user of one email after a pass, for every outcome of its two calls, by the number of addresses, the limit, the old mark and user and the client's password or id by protocol |
| LimitFields.EventFields | web/job/check_client_ip_job.go:170-367 | likewise for reloads, removals and restarts |
| LimitFields.PropertiesFields | web/job/check_client_ip_job.go:170-367 | the three properties and their conjunction, by mark, user and enabling |
| LimitFields.BreakingIff | web/job/check_client_ip_job.go:170-367 | the events that break one of them, by mark, user, limit and failures |
| LimitFields.RunEnforcesFields | web/job/check_client_ip_job.go:170-257 | in a run without such an event, after a pass whose calls succeed: in the core with the own credential if and only if enabled and not more addresses than the limit; marked if and only if more |
| LimitFields.MarkFollowsLines | web/job/check_client_ip_job.go:74-257 | from the log: marked if and only if accepted lines of the last 180000 ms name more addresses than the limit |
| DeviceLimit.XrayCore.AddUser | xray/api.go:96-168 | refused for a present email or by a failure, else the user is added |
| DeviceLimit.XrayCore.RemoveUser | xray/api.go:170-186 | the user is gone unless the call fails |
| XrayConfig.GetXrayConfig | web/service/xray.go:115-400 | levels for exactly the speeds in use, the enabled clients of the enabled inbounds as loaded, and a tick's effect on the tables, of which no enabled row or inbound is over quota or expired |
| XrayConfig.CollectSpeeds | web/service/xray.go:124-137 | exactly the positive limits of clients of enabled inbounds |
| XrayConfig.BuildLevels | web/service/xray.go:152-201 | level 0 without limit, one level per speed, and the template's others |
| XrayConfig.PolicyFields | web/service/xray.go:124-201 | level 0 without a limit, one under the text of each positive limit of a client of an enabled inbound, and otherwise exactly the template's |
| XrayConfig.BuildClients | web/service/xray.go:258-359 | the enabled clients in order, each with its level |
| XrayConfig.MapLevel | web/service/xray.go:321-347 | the limit by email, else by id, else the client's own |
| XrayConfig.SpeedMaps | web/service/xray.go:234-246 | for every email and id the limit of the last client that has it |
| XrayConfig.EmittedExactly | web/service/xray.go:268-290 | a client is emitted if and only if it is enabled in the settings and in the ledger, which `XrayConfig.EmittedFields` spells out; order is kept |
| XrayConfig.EmittedFields | web/service/xray.go:254-359 | an inbound is emitted if and only if it is enabled; its entries are those of the clients with `enable` set and no row with `enable` cleared, each with the client's id, email, password and level |
| XrayConfig.LevelFields | web/service/xray.go:321-347 | also for repeated emails and ids: the positive limit of the last client with the email, else of the last with the id, else the client's own |
| XrayConfig.LevelsHavePolicies | web/service/xray.go:186-201 | a level has its own policy if and only if it is not negative or the template has one |
| XrayConfig.LevelIsOwnLimit | web/service/xray.go:321-347 | with unique emails and ids the level is the client's own limit |
| XrayConfig.OwnLimitHasPolicyIff | web/service/xray.go:186-201 | with unique emails and ids a client's level is its limit, and has its own policy if and only if the limit is not negative or the template has one |
| Counterexamples.NegativeLimit | web/service/xray.go:332-347 | a limit of -1 is emitted as a level without a policy |
| XrayConfig.SnapshotIsCurrentIff | web/service/xray.go:223 | what is emitted from the tables loaded before the tick is what those left behind give, if and only if no enabled inbound is spent and no row of its clients is about to be switched |
| XrayConfig.SnapshotIsCurrent | web/service/xray.go:223 | directly after a tick at the same time that condition holds |
| Counterexamples.StaleSnapshot | web/service/xray.go:223 | a client that expires with the tick inside is emitted all the same |

## Left out

- TrafficService.AddTraffic: exact only on clean tables (emails unique, with their rows); when several rows share an email, the effect depends on the order in which the database returns them. The clock is read once, where the parts of a tick each read it.
- TrafficService.AddClientTraffic: exact only on clean tables, for the same reason.
- TrafficService.AdjustTraffics: exact only on clean tables, for the same reason.
- TrafficService.AutoRenewClients: exact only on clean tables, for the same reason.
- Depleted.DelDepletedClients: exact only on tables whose email sets agree and have no commas; the lock is the only conflict between connections that is modelled, and no other request runs beside the clean-up.
- KeyBase64.KeyFromBase64: `atob` is the decoder of RFC 4648, which takes no white space and no missing padding.
- InboundServices.InboundService.CheckEmailsExist: case folding of emails is that of ASCII.
- DeviceLimit.RunIsSafeIff: emails keep their inbound's tag and protocol over a run, and none comes or goes; limits, credentials, addresses and failures may change, credentials and enabling only with a reload.
- DeviceLimit.XrayCore.AddUser: a failed call has no effect; one that times out after taking effect is not modelled. In `unbanUser` it would act like a reload of the marked user.
- DeviceLimit.XrayCore.RemoveUser: likewise.
- DeviceLimit.CheckDeviceLimitJob.CheckAllClientsLimit: accounts are a map from emails, in place of the queries by email; the shadowsocks branch is left out because the client map built there has no cipher, and other protocols because the API call ignores them.
- ActiveIps.ActiveClients.Run: the clock is read once, where the cleanup and the log each read it.
- ActiveIps.ActiveClients.ParseAccessLog: positions count lines in place of bytes, and lines come taken apart by the two regular expressions.
- ActiveIps.EveryLineOnce: for logs of whole lines, none longer than the scanner takes.
- XrayStats.GetTraffic: the names of statistics come taken apart; a failed query is not modelled.
- XrayConfig.GetXrayConfig: configuration fields other than policy levels and clients, and the template's own inbounds.
- XrayConfig.BuildLevels: policy fields other than the two limits.
- XrayConfig.BuildClients: `enable` and `speedLimit` are typed; the other fields of a client and the stream settings are not modelled.
- Tables are maps on their unique indexes, and counters are unbounded in place of 64 bits; SQL text, JSON and connection errors are not modelled.
- Calls of requests and ticks to the running core, except as the reloads, removals and restarts in the runs of the device limit; `needRestart`, timestamps, the table of client addresses, logging and Telegram messages.
- `UpdateClientTrafficByEmail`, which overwrites counters, imports with ready-made statistics, `ResetAllTraffics` and `ResetClientTraffic`.
- The v2board sync, which adds clients without the duplicate check and brings its own tags.
- Randomness of keys; that p is prime and the group law of the curve, which RFC 7748's definition does not need.
- Some loops that the program has inline are methods of their own here, such as `Schoolbook`, `Fold`, `SubtractPrime`, `MapLevel` and `LadderRung`.
