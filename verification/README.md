# DeMailX mailbox core in Dafny

DeMailX is a mail system built on a blockchain. One on-chain contract keeps
three things: a registry that binds wallet addresses to `name@demailx`
aliases, a ledger of immutable message records under increasing ids, and
per-user mailboxes. A mailbox holds a sent list, an inbox list, one
`read|archived|spam` flag triple per delivered message, and retention and
spam-list settings. A browser client reads the contract's string layouts
back into values. It also hides message bodies with a repeating-key XOR
rendered as hex.

This project models four parts:

- **The contract** (`MailContract`, from `contract/assembly/contracts/main.ts`).
  The state is an immutable record with one map per storage-key prefix. A
  missing key reads as `""`. Every exported function is a pure transition
  returning `Result<Reply, Error>`. A failed `assert` is a `Failure` that
  commits nothing.
- **Runs of the contract** (`ContractRuns`). Any sequence of calls is
  covered, with the invariants that hold along every run of authentic calls
  (every call other than `createMessage` has a non-empty caller) from a
  consistent store.
- **The client's codecs** (`ClientCodec`, from
  `frontend/src/utils/contract.ts`). These are the decoders for id lists,
  message records, flag triples, spam lists and the alias, and each is
  proved against the contract's encoders.
- **The body obfuscation** (`Obfuscation`, from
  `frontend/src/utils/encryption.ts`). This covers hex encoding, the
  `parseInt(…, 16)` decoder, the periodic-key XOR, and encryption and
  decryption with an explicit key.

Supporting modules:

- `Wrappers` holds `Option` and `Result`.
- `JsText` holds JavaScript's `split`, `join` and `trim`-truthiness.
- `Numerals` holds decimal rendering and digit parsing, including
  AssemblyScript's f64 text.
- `EndToEnd` holds whole-system scenarios that drive the contract as the
  client does and read the result back through the client's decoders.

Several facts are modelled as the code has them:

- `createMessage` trusts the `from` and `to` its caller supplies.
- `sendMessage` checks neither that the message exists nor that the
  recipient is registered. Delivering the same id again appends a duplicate
  and resets the flags to `0|0|0`.
- The flag setters do nothing when the caller has no entry.
- Day settings are stored unvalidated. Storing `""` makes the getter
  return the default again.

Flag triples are kept as a `Flags` value. `MailContract.SetFieldInEncodedText`
shows this is exact: the contract's split, assign and join on the stored text
is the same as raising the flag.

## Model

| member | source | states |
|---|---|---|
| MailContract.Deploy | contract/assembly/contracts/main.ts:22-27 | The deployed store counts 0 registrations and will hand out id 1 next. It satisfies the store invariant: inverse alias maps, a count equal to the number of registered addresses, and every stored message under an id below the counter. |
| MailContract.RegisterEmail | contract/assembly/contracts/main.ts:36-62 | The call fails with `EmailAlreadyRegistered` when the caller already has an alias. It fails with `EmailTaken` when the alias `AliasFor(username)` (`username@demailx`, main.ts:41) is bound. It succeeds exactly when neither holds, so both checks come before any write. On success it returns the alias and binds caller and alias in both directions, as read through `GetEmailByAddress` and `GetAddressByEmail` (main.ts:67-84, the stored text or ""). No other address's or alias's binding changes, the count rises by exactly one, and ledger, mailboxes and settings are untouched. |
| MailContract.BindKeepsInverse | contract/assembly/contracts/main.ts:52-53 | Writing a fresh address→alias and alias→address pair into two inverse maps leaves them inverse. |
| MailContract.RegisterPreservesInvariant | contract/assembly/contracts/main.ts:44-58 | A successful registration by a real caller keeps the alias maps exact inverses and the counter equal to the number of registered addresses. |
| MailContract.SecondRegistrationFails | contract/assembly/contracts/main.ts:44-45 | Once an address has registered, every further registration by it fails, whatever the username. |
| MailContract.TakenAliasIsRefused | contract/assembly/contracts/main.ts:47-49 | After one address takes an alias, any other address asking for the same username is refused. A refused call commits nothing. |
| MailContract.EmailExists | contract/assembly/contracts/main.ts:89-96 | The answer is always the text "1" or "0". |
| MailContract.CreateMessage | contract/assembly/contracts/main.ts:103-126 | The call always succeeds. It returns the decimal text of the current counter (1 while unset) and advances the counter by exactly one. Under that id, `GetMessage` (main.ts:131-137) then reads `EncodeRecord` of the six fields (main.ts:121), with the timestamp in decimal. No other id's record changes, and registry, mailboxes and settings are untouched. |
| MailContract.CreateMessageAllocatesFreshId | contract/assembly/contracts/main.ts:111-122 | On a consistent store the returned id was never used before. Every earlier message keeps its record, and the store stays consistent. |
| MailContract.AllocateIdAsWritten | contract/assembly/contracts/main.ts:112-115 | This is the counter step as deployed: `parseInt` of the stored text, plus one, rendered by `IntegralF64Text` (AssemblyScript's f64 `toString`, main.ts:113, the digits followed by ".0"). The id and the new stored text both start with a non-zero digit. The values are pinned by `AsWrittenStep`. |
| MailContract.AsWrittenStep | contract/assembly/contracts/main.ts:111-114 | An unset counter behaves as the constructor's "1". For every n >= 1, on the stored text "n" and on "n.0" alike, the step hands out the stored text itself as the id and stores "(n+1).0" back. The digit capture of "n.0" is the decimal text of n, not the id. Applied step by step from the constructor's "1", it hands out "1", then "2.0", "3.0" and so on. |
| MailContract.SecondIdAsWrittenIsNotDecimal | contract/assembly/contracts/main.ts:112-115 | As deployed, the first id is "1" and the second is "2.0". The client's digit capture turns "2.0" into "2", a different key. |
| MailContract.CreatedIdSurvivesDigitCapture | contract/assembly/contracts/main.ts:122-125 | With decimal ids, the leading-digit capture of the returned id is the id itself, and its value is the counter it was taken from. |
| MailContract.SendMessage | contract/assembly/contracts/main.ts:144-168 | The call appends the id to the caller's sent list and to the recipient's inbox list. `AppendId` (main.ts:154, 160) writes the id alone onto an empty list and after a comma otherwise; the lists are read through `GetSent` and `GetInbox` (main.ts:173-190). The call writes an all-clear entry for (recipient, id), overwriting earlier flags. No other list or entry changes, and the registry, ledger and settings are untouched. |
| MailContract.SetFieldInEncodedText | contract/assembly/contracts/main.ts:204-206 | `SetFieldInText` is the setters' text edit on any stored text: split on the pipe character, assign "1" at the field's position (growing the array if needed), join. On a stored triple that edit equals the encoding of the flags with that field raised. |
| MailContract.SetFlag | contract/assembly/contracts/main.ts:199-208 | A missing entry leaves the store unchanged. Otherwise the caller's entry gets exactly the named field raised. Every other entry, the lists, the registry, the ledger and the settings stay the same. |
| MailContract.SetFlagIdempotent | contract/assembly/contracts/main.ts:203-206 | Raising the same flag twice is raising it once. |
| MailContract.MarkAsRead | contract/assembly/contracts/main.ts:195-209 | With no entry, the store is unchanged. Otherwise the entry becomes (read, old archived, old spam), and its stored text is the old text with field 0 set to "1". Nothing but that entry changes. |
| MailContract.ArchiveMessage | contract/assembly/contracts/main.ts:233-247 | With no entry, the store is unchanged. Otherwise the entry becomes (old read, archived, old spam), with field 1 of the text set to "1". Nothing but that entry changes. |
| MailContract.MarkAsSpam | contract/assembly/contracts/main.ts:214-228 | With no entry, the store is unchanged. Otherwise the entry becomes (old read, old archived, spam), with field 2 of the text set to "1". Nothing but that entry changes. |
| MailContract.GetInboxEntry | contract/assembly/contracts/main.ts:252-264 | The result is `EncodeFlags` (the read, archived and spam digits "0" or "1" joined by the pipe character, as written at main.ts:165 and 204-206) of the stored flags, or of all-clear when nothing was delivered. |
| MailContract.SetSpamList | contract/assembly/contracts/main.ts:271-279 | The caller's spam list, as read through `GetSpamList` (main.ts:284-290), becomes the given text, whole. Every other address's list and everything else is unchanged. |
| MailContract.GetMaxInboxDays | contract/assembly/contracts/main.ts:308-315 | The result is never empty. It is the stored text whenever that is non-empty, and otherwise the default "60". |
| MailContract.GetMaxSpamDays | contract/assembly/contracts/main.ts:333-340 | The result is never empty. It is the stored text whenever that is non-empty, and otherwise the default "7". |
| MailContract.SetMaxInboxDays | contract/assembly/contracts/main.ts:295-303 | Afterwards the getter returns exactly the stored text, or "60" when it was "". Other addresses and everything else are unchanged. |
| MailContract.SetMaxSpamDays | contract/assembly/contracts/main.ts:320-328 | Afterwards the getter returns exactly the stored text, or "7" when it was "". Other addresses and everything else are unchanged. |
| ContractRuns.StepPreservesInvariant | contract/assembly/contracts/main.ts:36-340 | Any single authentic call, committed or reverted, keeps the store invariant. |
| ContractRuns.RunPreservesInvariant | contract/assembly/contracts/main.ts:36-340 | Every run of authentic calls from a consistent store ends in a consistent store. |
| ContractRuns.DeployedCountMatchesRegistrations | contract/assembly/contracts/main.ts:22-58 | After any run from deployment, `email_count` equals the number of registered addresses, and the alias maps are exact inverses. |
| ContractRuns.StepKeeps | contract/assembly/contracts/main.ts:36-340 | On a store satisfying the invariant, no single call removes or rebinds an alias in either direction, rewrites a stored message, or lowers the id counter. |
| ContractRuns.RunKeeps | contract/assembly/contracts/main.ts:36-340 | Along any run of authentic calls (every call other than createMessage has a non-empty caller) from a store satisfying the invariant, alias bindings and stored messages are never overwritten, and the counter never goes back. |
| ContractRuns.StepCounter | contract/assembly/contracts/main.ts:112-115 | A `createMessage` call raises the counter by exactly one, and no call lowers it. |
| ContractRuns.RunCounter | contract/assembly/contracts/main.ts:112-115 | The counter after a run is at least the counter before it. |
| ContractRuns.AllocatedIdsIncrease | contract/assembly/contracts/main.ts:112-115 | The ids handed out along a run are strictly increasing and lie between the counter before the run and the counter after it. |
| ContractRuns.AllocatedIdTextsDistinct | contract/assembly/contracts/main.ts:112-122 | The id texts that the `createMessage` calls of a run actually return (`IssuedIds`) are pairwise distinct, so an id is never handed out twice. |
| ContractRuns.IssuedIdsAreDecimal | contract/assembly/contracts/main.ts:112-125 | The id text each `createMessage` call of a run returns is the decimal text of the counter value it was handed at that call. |
| JsText.Split | frontend/src/utils/contract.ts:210 | `split` always yields at least one piece, no piece holds the separator, and joining the pieces gives the input back. |
| JsText.SplitAroundSeparator | frontend/src/utils/contract.ts:210 | Splitting `x + sep + y` is splitting `x` followed by splitting `y`. |
| JsText.SplitJoin | frontend/src/utils/contract.ts:235 | Splitting the `Join` (`Array.prototype.join`, as at contract.ts:282) of a non-empty list of separator-free pieces gives exactly those pieces. The empty list joins to "", which splits to one empty piece, so it is excluded. |
| JsText.KeepNonBlank | frontend/src/utils/contract.ts:210 | `filter(id => id.trim())` keeps exactly the pieces that are not all whitespace, as they are (untrimmed). |
| JsText.KeepNonBlankConcat | frontend/src/utils/contract.ts:210 | The filter distributes over concatenation. |
| Numerals.Decimal | contract/assembly/contracts/main.ts:118 | Decimal text is non-empty and all digits, with a leading zero only for 0. |
| Numerals.DecimalRoundTrip | contract/assembly/contracts/main.ts:112-114 | Reading the digits of the decimal text of n gives n. |
| Numerals.DecimalInjective | contract/assembly/contracts/main.ts:122 | Different numbers have different decimal texts, so different ids are different storage keys. |
| Numerals.LeadingDigits | frontend/src/utils/contract.ts:180 | The `(\d+)` capture is an all-digit prefix of the text, and the character after it, if any, is not a digit. |
| Numerals.LeadingDigitsOfF64Text | frontend/src/utils/contract.ts:180 | The digit capture of the f64 text "n.0" is the decimal text of n. |
| ClientCodec.DecodeList | frontend/src/utils/contract.ts:208-211 | An empty stored list decodes to no ids. |
| ClientCodec.DecodeListItems | frontend/src/utils/contract.ts:210 | A text is a decoded item exactly when it is a comma-split piece that is not blank. Every decoded item is comma-free and not blank. |
| ClientCodec.DecodeAppend | frontend/src/utils/contract.ts:208-219 | Decoding a list after the contract appends one comma-free, non-blank id gives the old decoding followed by that id. |
| ClientCodec.DecodeAppendAll | frontend/src/utils/contract.ts:208-219 | Decoding a list after any sequence of appends of list items (non-blank, comma-free ids) gives the old decoding followed by the appended ids, in order and with duplicates kept. |
| ClientCodec.ListRoundTrip | frontend/src/utils/contract.ts:281-291 | A list of comma-free, non-blank items survives `EncodeList` (`join(',')`, contract.ts:282) and then `DecodeList`'s split-and-filter unchanged. |
| ClientCodec.DecodeMessage | frontend/src/utils/contract.ts:224-237 | The decoder answers null exactly for the empty record. |
| ClientCodec.MessageRoundTrip | frontend/src/utils/contract.ts:224-237 | A record built from six fields free of the pipe character decodes to exactly those six fields. |
| ClientCodec.DecodeEntry | frontend/src/utils/contract.ts:242-255 | "" decodes as all-clear. Otherwise each flag is true exactly when its pipe-separated piece exists and is exactly "1". |
| ClientCodec.EntryRoundTrip | frontend/src/utils/contract.ts:242-255 | Every flag triple the contract stores decodes to the same flags. |
| ClientCodec.ClientAliasMatchesContract | frontend/src/utils/contract.ts:110-113 | The alias the client reports after registering, `RegisteredAlias` (contract.ts:112), equals the one the contract returns and binds. |
| ClientCodec.ExistsMeansBound | frontend/src/utils/contract.ts:132-135 | The client's boolean `DecodeExists` (`result === '1'`, contract.ts:134) is true exactly when the alias is bound to an address. |
| ClientCodec.DeliveryAsSeenByClient | frontend/src/utils/contract.ts:208-219 | After a delivery, the client's decoded sent and inbox lists each gain exactly that id at the end. The entry reads all-clear. |
| ClientCodec.EntryAsSeenByClient | frontend/src/utils/contract.ts:247-254 | The client's decoded entry is the stored flags, or all-clear when nothing was delivered. |
| ClientCodec.CreatedMessageAsSeenByClient | frontend/src/utils/contract.ts:232-236 | A created message read back under its id decodes to the six values it was created with, provided none holds the pipe character. |
| ClientCodec.SpamListAsSeenByClient | frontend/src/utils/contract.ts:281-291 | A spam list of comma-free, non-blank addresses set through the client reads back unchanged. |
| Obfuscation.BitXorBelow | frontend/src/utils/encryption.ts:36-38 | The XOR of two bytes is a byte. |
| Obfuscation.BitXorTwice | frontend/src/utils/encryption.ts:38 | XOR with the same value twice is the identity. |
| Obfuscation.ByteToHex | frontend/src/utils/encryption.ts:78 | Every byte renders as exactly two lowercase hex characters. |
| Obfuscation.BytesToHex | frontend/src/utils/encryption.ts:77-79 | The output has twice as many characters as the input has bytes, all lowercase hex. |
| Obfuscation.HexToBytes | frontend/src/utils/encryption.ts:69-75 | The output has half the hex length, rounded down, in bytes. |
| Obfuscation.ParseHexPair | frontend/src/utils/encryption.ts:72 | `ParseIntHex` models `parseInt(…, 16)`: it skips leading white space, reads one sign, drops a 0x prefix and takes the longest hex run, with NaN as `None`. On two lowercase hex digits it gives the number they spell. |
| Obfuscation.PairRoundTrip | frontend/src/utils/encryption.ts:72 | Parsing a byte's two-character hex and storing it as `ToUint8` does (NaN as 0, other values modulo 256) gives the byte back. |
| Obfuscation.HexRoundTrip | frontend/src/utils/encryption.ts:69-79 | `hexToBytes(bytesToHex(b)) == b` for every byte sequence. |
| Obfuscation.KeyedXorBytes | frontend/src/utils/encryption.ts:36-39 | `KeyedXor`, the loops at encryption.ts:36-39 and 52-55, keeps the length. With key bytes present, position i uses key byte i mod the key length. With none, the key byte is `undefined`, `x ^ undefined` is `x`, and the output equals the input. |
| Obfuscation.KeyedXorInvolution | frontend/src/utils/encryption.ts:37-39 | Applying the keyed XOR twice with the same key gives the data back, for every key including the empty one. |
| Obfuscation.EncryptMessage | frontend/src/utils/encryption.ts:31-42 | The key text is `KeyText` (encryption.ts:32, 48): the given key, or the stored one when the given key is empty. The ciphertext has two lowercase hex characters per message byte. |
| Obfuscation.DecryptMessage | frontend/src/utils/encryption.ts:47-58 | Decryption yields half the hex length, rounded down, in bytes. |
| Obfuscation.DecryptEncrypt | frontend/src/utils/encryption.ts:31-58 | Decrypting with the key used to encrypt gives the message bytes back, whatever the key text. |
| Obfuscation.ShortKeyLeavesPlaintext | frontend/src/utils/encryption.ts:32-38 | A key text under two characters yields no key bytes, and the ciphertext is the plain hex of the message. |
| Obfuscation.CiphertextHasNoSeparator | frontend/src/utils/encryption.ts:41 | A ciphertext holds neither the pipe character nor a comma, so it is a safe body field and list item. |
| Obfuscation.GenerateKey | frontend/src/utils/encryption.ts:22-26 | 32 random bytes give 64 lowercase hex characters that decode back to those bytes. |
| EndToEnd.AliceMailsBob | contract/assembly/contracts/main.ts:36-168 | From deployment, two wallets register different aliases and the first sends the second a message. The recipient's decoded inbox and the sender's decoded sent list are exactly [id], the message reads as from the sender, and the entry is all-clear. |
| EndToEnd.TakenAliasLeavesBothUntouched | contract/assembly/contracts/main.ts:44-53 | A second wallet asking for a taken alias is refused, and the alias's binding reads the same in both directions. |
| EndToEnd.DeliverThenRead | contract/assembly/contracts/main.ts:151-206 | Delivering and then marking as read reads back as read, not archived and not spam. |
| EndToEnd.RedeliveryDuplicates | contract/assembly/contracts/main.ts:154-161 | Delivering one id twice, with a flag set in between, lists it twice in the decoded inbox. |
| EndToEnd.RedeliveryClearsFlags | contract/assembly/contracts/main.ts:164-165 | A spam flag set after delivery reads back as set, and a second delivery of the same id clears it. |
| EndToEnd.EncryptedBodyRoundTrip | frontend/src/utils/encryption.ts:31-58 | An encrypted body stored with a message is read back, decoded and decrypted with the same key as the original bytes. |

## Left out

- `Args` decoding and `.expect` on every contract entry point. Inputs arrive as already-decoded strings.
- `Context.caller()` is a parameter. `ValidAddress` (non-empty) is assumed only where an invariant needs it.
- `Context.timestamp()` is a natural-number input, rendered in decimal.
- `Context.isDeployingContract()` is not modelled. `MailContract.Deploy` is the initial state.
- `generateEvent` texts are not modelled, except where the client reads the creation event's id (see Findings).
- `Storage` is one map per key prefix. This assumes addresses hold no '_' and that no key of one prefix spells a key of another: `inbox_` against `inbox_entry_`, or `inbox_entry_` + owner + `_` + id for owners containing '_'.
- MailContract.CreateMessage uses the decimal text of the counter, not the deployed f64 text. That is the corrected behaviour described under Findings.
- The stored text of `email_count` is not modelled; it is only ever read back through `parseInt`. Because of this, EmailCount is a number, and the ".0" rendering is unobservable there.
- `parseInt` on day settings and timestamps, and the client's `Date` rendering, are not modelled. These are numeric formatting left to the JavaScript runtime.
- The client's network and RPC code is not modelled. That covers `initClient`, `setWalletProvider`, `setAccount`, `readContract`/`writeContract`, and the two-transaction orchestration in the client's `sendMessage`, including its `Date.now()` fallback id. These are I/O and timing. The scenario lemmas drive the contract functions directly.
- `getOrCreateEncryptionKey`, `localStorage` and `crypto.getRandomValues` are not modelled. The stored key and the random bytes are parameters.
- `TextEncoder`/`TextDecoder` are not modelled. Messages are byte sequences, so DecryptMessage returns bytes, not a decoded string.
- The React components and `wallet.ts` are not modelled: their filtering, sorting and block-list helpers are UI glue over the contract's data.
- Retention sweeps and spam blocking are not modelled, because the code stores these settings but never enforces them.
- Counters and timestamps are unbounded naturals. The deployed counter is an f64: it is exact only up to 2^53, and from 10^21 it prints in exponent form, which `Numerals.IntegralF64Text` does not model. Neither bound is reachable in practice.
- Strings are sequences of code points. JavaScript's `length` and `substr` (encryption.ts:70-72) count UTF-16 code units, so `HexToBytes` matches the source only on key and ciphertext texts without characters outside the Basic Multilingual Plane. Hex texts never contain such characters.

## Findings

| source | as written | input that shows it | evidently intended | confidence | as-written member | corrected member |
|---|---|---|---|---|---|---|
| contract/assembly/contracts/main.ts:112-115 | The next id is stored as `(parseInt(messageId) + 1).toString()`. In AssemblyScript `parseInt` returns f64, so this is f64 text such as "2.0". The client takes the id from the creation event with `/Message created:\s*(\d+)/` (frontend/src/utils/contract.ts:180). | Deploy, then create two messages. The second is stored under "2.0", the client delivers and fetches "2", and `getMessage("2")` reads "". | Ids are decimal integers ("1", "2", …), so the captured id is the storage key. | medium: depends on AssemblyScript's f64 `toString`; not executed | MailContract.AllocateIdAsWritten, MailContract.AsWrittenStep, MailContract.SecondIdAsWrittenIsNotDecimal | MailContract.CreateMessage, MailContract.CreatedIdSurvivesDigitCapture |
