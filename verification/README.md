# Death-ban life cycle (KickTimer `DeathBanMod`)

This project models the ban logic of a Fabric server mod. When a player dies, the mod
disconnects them. It then refuses their reconnection until a configured number of hours and
minutes has passed since the death. The state is one map, `banList`, from player UUID to the
epoch millisecond at which the ban started. There is also a tick counter.

Three events change the map:

- **Death.** A player who is not exempt gets a fresh entry, which overwrites any earlier one. The
  file is saved, and the player is disconnected with the full ban duration.
- **Join.** A banned player with time remaining is disconnected and told how long is left.
  Otherwise their entry is removed and the file is saved.
- **Sweep.** Every 1201st server tick, and once at server start, every expired entry is removed.
  The sweep does not save the file.

A player is exempt when the configuration excludes operators and the player holds permission
level 4.

The map is persisted as a fixed-width binary file, big-endian as `DataOutputStream` writes it:

- a 32-bit entry count;
- then, for each entry, three 64-bit values: the UUID's high bits, its low bits and the ban
  start time.

Reading that ends early is an `IOException`, and the load then falls back to an empty map. A
missing file leaves the map as it was.

Modules, one per concern:

- `JavaInt`: Java `int`/`long` ranges, `long` wrap-around (`Wrap64`), and truncating `/` and `%`.
- `Decimal`: `%d` rendering of integers with ASCII digits, and its parser.
- `BigEndian`: `writeInt`/`writeLong` and `readInt`/`readLong` byte layouts.
- `BanPolicy`: the `Config` record, `getTotalBanMillis`, the remaining-time and sweep
  expressions, and `formatTime`.
- `BanStore`: UUIDs, the ban map, and the iteration orders in which a `HashMap` can list its
  entries.
- `BanFile`: `saveBans` as an encoder, and `loadBans` as a decoder plus its fallback.
- `DeathBan`: the death, join, sweep and tick handlers, and the server state machine `Step`
  over all events.
- `Scenarios`: concrete runs with the default configuration.

Time is a parameter `now` (a Java `long`). Handlers return the new map, the disconnect message
(if any) and whether `saveBans` ran.

Java `long` arithmetic is modelled exactly. `bannedAt + total - now` in the join check and
`bannedAt + total <= now` in the sweep are both computed with wrap-around. As a result the two
checks agree only while `(bannedAt + total) - now` does not wrap:

- `BanPolicy.ExpiryAgreement` proves that they agree in that case.
- `BanPolicy.ExpiryDisagreement` proves that they disagree whenever it wraps.
- `BanPolicy.ExpiryDisagreesOnWrap` gives an instance: a stored start time of `Long.MIN_VALUE`
  with the default one-day duration.

`formatTime` is modelled for every `long`, negative ones included, with Java's truncating
division. `getTotalBanMillis` is proved never to overflow for any `int` hours and minutes.

Where one might expect otherwise, the model follows the code:

- The periodic sweep does not persist the file.
- A "malformed" file fails only by ending early. A non-positive count loads as an empty map.
  Bytes after the declared entries are ignored. A UUID stored twice keeps its last time.
- The join check and the sweep use different expressions, which can disagree under `long`
  wrap-around.

## Model

| member | source | states |
|---|---|---|
| `JavaInt.Wrap64` | src/main/java/com/yourname/deathban/DeathBanMod.java:123 | a `long` sum or difference is the value congruent to the exact one modulo 2^64, and equals it when no overflow occurs |
| `JavaInt.JavaDiv` | src/main/java/com/yourname/deathban/DeathBanMod.java:136-138 | Java division by a positive divisor rounds toward zero: the remainder lies in [0, d) for non-negative dividends and in (-d, 0] for negative ones |
| `JavaInt.JavaRem` | src/main/java/com/yourname/deathban/DeathBanMod.java:139 | Java `%` agrees with Euclidean remainder for non-negative dividends and is its negation on the magnitude for negative ones |
| `Decimal.NatToString` | src/main/java/com/yourname/deathban/DeathBanMod.java:142-146 | `%d` of a natural number is a non-empty digit string with no leading zero, of length 1 exactly for values below 10 |
| `Decimal.IntToString` | src/main/java/com/yourname/deathban/DeathBanMod.java:142-146 | `%d` output starts with '-' exactly for negative numbers and is all digits otherwise |
| `Decimal.ParseNatToString` | src/main/java/com/yourname/deathban/DeathBanMod.java:142-146 | the digits written for a natural number read back as that number |
| `Decimal.ParseIntToString` | src/main/java/com/yourname/deathban/DeathBanMod.java:142-146 | parsing the `%d` rendering of any integer gives back that integer |
| `Decimal.IntToStringInjective` | src/main/java/com/yourname/deathban/DeathBanMod.java:142-146 | different numbers are shown differently in a message |
| `BigEndian.FromToBytes` | src/main/java/com/yourname/deathban/DeathBanMod.java:183-188 | reading back k big-endian bytes of an unsigned value below 256^k gives that value |
| `BigEndian.ToFromBytes` | src/main/java/com/yourname/deathban/DeathBanMod.java:163-167 | every byte string is the big-endian encoding of the value read from it |
| `BigEndian.ReadWriteSigned` | src/main/java/com/yourname/deathban/DeathBanMod.java:183-188 | two's-complement encoding in k bytes followed by decoding is the identity on the k-byte signed range |
| `BigEndian.ReadWriteInt` | src/main/java/com/yourname/deathban/DeathBanMod.java:183 | `readInt` of the four bytes `writeInt` writes gives back the count |
| `BigEndian.ReadWriteLong` | src/main/java/com/yourname/deathban/DeathBanMod.java:186-188 | `readLong` of the eight bytes `writeLong` writes gives back the UUID half or time |
| `BigEndian.WriteReadInt` | src/main/java/com/yourname/deathban/DeathBanMod.java:163 | any four bytes are the encoding of the int `readInt` returns for them |
| `BigEndian.WriteReadLong` | src/main/java/com/yourname/deathban/DeathBanMod.java:166-167 | any eight bytes are the encoding of the long `readLong` returns for them |
| `BigEndian.WriteInt` | src/main/java/com/yourname/deathban/DeathBanMod.java:183 | `writeInt` takes exactly 4 bytes; `ReadWriteInt` and `WriteReadInt` show it is the two's-complement big-endian layout `readInt` inverts |
| `BigEndian.ReadInt` | src/main/java/com/yourname/deathban/DeathBanMod.java:163 | `readInt` yields a Java `int`; the round trips above pin it down as the inverse of `writeInt` |
| `BigEndian.WriteLong` | src/main/java/com/yourname/deathban/DeathBanMod.java:186-188 | `writeLong` takes exactly 8 bytes; `ReadWriteLong` and `WriteReadLong` show `readLong` inverts it |
| `BigEndian.ReadLong` | src/main/java/com/yourname/deathban/DeathBanMod.java:166-167 | `readLong` yields a Java `long`; the round trips above pin it down as the inverse of `writeLong` |
| `BanPolicy.TotalBanMillis` | src/main/java/com/yourname/deathban/DeathBanMod.java:199-203 | the `long` computation never overflows for `int` inputs: the total is exactly hours·3 600 000 + minutes·60 000 ms, and non-negative for non-negative hours and minutes |
| `BanPolicy.Remaining` | src/main/java/com/yourname/deathban/DeathBanMod.java:122-123 | without overflow the remaining time is exactly ban start + duration − now |
| `BanPolicy.SweepExpired` | src/main/java/com/yourname/deathban/DeathBanMod.java:153 | the sweep's removal test `get + duration <= now` in `long` arithmetic; `ExpiryThreshold` gives its meaning without overflow and `ExpiryDisagreesOnWrap` its behaviour with it |
| `BanPolicy.FormatTime` | src/main/java/com/yourname/deathban/DeathBanMod.java:135-148 | from one hour up: whole hours and minutes past the hour; from one minute up: whole minutes with no seconds; below a minute: whole seconds; a negative input gives the negated seconds-within-a-minute of its magnitude |
| `BanPolicy.FormatTimeUnits` | src/main/java/com/yourname/deathban/DeathBanMod.java:136-139 | the chained truncating divisions give millis/1000, millis/60000 and millis/3600000 for non-negative input, and non-positive hours and minutes for negative input |
| `BanPolicy.ExpiryThreshold` | src/main/java/com/yourname/deathban/DeathBanMod.java:123-153 | without overflow a ban has time remaining exactly while now < start + duration, and the sweep treats it as expired exactly from start + duration on |
| `BanPolicy.ExpiryAgreement` | src/main/java/com/yourname/deathban/DeathBanMod.java:123-153 | when `(start + duration) - now` does not wrap, "no time remaining" at join and the sweep's removal condition coincide |
| `BanPolicy.ExpiryAgreementForClockValues` | src/main/java/com/yourname/deathban/DeathBanMod.java:123-153 | the two conditions coincide for all non-negative start times and durations below 2^62 ms and non-negative clock readings |
| `BanPolicy.ExpiryDisagreement` | src/main/java/com/yourname/deathban/DeathBanMod.java:123-153 | whenever `(start + duration) - now` wraps, "no time remaining" at join holds exactly when the sweep would keep the entry, so the two checks always disagree |
| `BanPolicy.ExpiryDisagreesOnWrap` | src/main/java/com/yourname/deathban/DeathBanMod.java:123-153 | with the default 86 400 000 ms duration and a stored start of `Long.MIN_VALUE`, at every time from 86 400 001 ms on the sweep treats the ban as expired while the join check finds 2^63 + 86 400 000 − now ms remaining |
| `BanPolicy.FormatTimeZero` | src/main/java/com/yourname/deathban/DeathBanMod.java:135-148 | 0 ms is shown as "0 seconds" |
| `BanPolicy.FormatTimeNinetySeconds` | src/main/java/com/yourname/deathban/DeathBanMod.java:143-144 | 90 000 ms is shown as "1 minutes": the minutes form drops the seconds |
| `BanPolicy.FormatTimeAlmostADay` | src/main/java/com/yourname/deathban/DeathBanMod.java:141-142 | 86 399 000 ms is shown as "23 hours 59 minutes" |
| `BanStore.DistinctCardinality` | src/main/java/com/yourname/deathban/DeathBanMod.java:184 | a list of distinct UUIDs has as many elements as its set |
| `BanStore.EnumerationCovers` | src/main/java/com/yourname/deathban/DeathBanMod.java:183-184 | an iteration of `size()` distinct keys of the map visits every entry, so every ban is written |
| `BanFile.ListedEnumeration` | src/main/java/com/yourname/deathban/DeathBanMod.java:183-187 | the entries written by one pass over the entry set are exactly the map |
| `BanStore.AnEnumeration` | src/main/java/com/yourname/deathban/DeathBanMod.java:184 | every ban map has an iteration order, so every map can be saved |
| `BanFile.WriteRecord` | src/main/java/com/yourname/deathban/DeathBanMod.java:186-188 | one entry takes exactly 24 bytes; `ReadOneRecord` shows they are the high bits, the low bits and the start time, in that order |
| `BanFile.WriteRecords` | src/main/java/com/yourname/deathban/DeathBanMod.java:184-189 | the entries take exactly 24 bytes each |
| `BanFile.Encode` | src/main/java/com/yourname/deathban/DeathBanMod.java:178-194 | a saved file of n entries is exactly 4 + 24·n bytes, for any iteration order |
| `BanFile.ReadRecordsOutcome` | src/main/java/com/yourname/deathban/DeathBanMod.java:165-169 | the read loop fails exactly when fewer than 24·count bytes remain; otherwise it keeps earlier keys and adds at most count entries |
| `BanFile.ReadRecords` | src/main/java/com/yourname/deathban/DeathBanMod.java:165-169 | the read loop, putting entries in file order; its outcome is stated by `ReadRecordsOutcome` and, on written bytes, by `ReadWrittenRecords` |
| `BanFile.DeclaredCount` | src/main/java/com/yourname/deathban/DeathBanMod.java:163 | the count `readInt` reads from the first four bytes; `Decode` states how it bounds the load and when it makes the load fail |
| `BanFile.Decode` | src/main/java/com/yourname/deathban/DeathBanMod.java:162-170 | decoding fails exactly when the file is shorter than 4 bytes or shorter than its positive declared count of entries, and yields at most that many entries |
| `BanFile.Load` | src/main/java/com/yourname/deathban/DeathBanMod.java:157-176 | a missing file leaves the ban list unchanged; a file under 4 bytes loads as empty; a load never holds more entries than the file declares |
| `BanFile.ReadOneRecord` | src/main/java/com/yourname/deathban/DeathBanMod.java:166-168 | reading one written entry puts that UUID with that time and moves past its 24 bytes |
| `BanFile.ReadWrittenRecords` | src/main/java/com/yourname/deathban/DeathBanMod.java:165-169 | reading back the written entries adds exactly the listed entries to what was read before |
| `BanFile.EncodeDecode` | src/main/java/com/yourname/deathban/DeathBanMod.java:157-194 | decoding what `saveBans` wrote gives back the saved map, for any iteration order and any trailing bytes |
| `BanFile.LoadSaved` | src/main/java/com/yourname/deathban/DeathBanMod.java:157-194 | loading a saved file restores the saved ban list, whatever was loaded before |
| `BanFile.LoadTruncated` | src/main/java/com/yourname/deathban/DeathBanMod.java:172-175 | a file that ends before its declared entries loads as an empty ban list |
| `BanFile.LoadNonPositiveCount` | src/main/java/com/yourname/deathban/DeathBanMod.java:163-165 | a file declaring zero or a negative count loads as empty, whatever follows |
| `BanFile.LoadCutShort` | src/main/java/com/yourname/deathban/DeathBanMod.java:172-175 | every proper prefix of a saved file loads as an empty ban list |
| `DeathBan.OnDeath` | src/main/java/com/yourname/deathban/DeathBanMod.java:45-53 | a non-player death or an exempt player's death changes nothing; otherwise the player's ban starts now, replacing any earlier one, other entries stay as they were, the file is saved, and the message shows the full ban duration |
| `DeathBan.ShouldBypass` | src/main/java/com/yourname/deathban/DeathBanMod.java:104-106 | a player is exempt exactly when operators are excluded and the player has permission level 4; `ExemptPlayerUntouched` shows an exempt player's death and join change nothing |
| `DeathBan.KickMessage` | src/main/java/com/yourname/deathban/DeathBanMod.java:49-51 | the disconnect text is the fixed prefix followed by `formatTime` of the time left; `Scenarios.DeathStartsOneDayBan` and `Scenarios.JoinRefusedASecondLater` give concrete messages |
| `DeathBan.CheckBanStatus` | src/main/java/com/yourname/deathban/DeathBanMod.java:119-134 | an unbanned player passes with no change; a player with time remaining is refused with that time and the list unchanged; otherwise exactly that entry is removed and the file saved |
| `DeathBan.OnJoin` | src/main/java/com/yourname/deathban/DeathBanMod.java:57-63 | a missing or exempt player changes nothing; a join only ever removes the joining player's own entry and never alters a time |
| `DeathBan.Sweep` | src/main/java/com/yourname/deathban/DeathBanMod.java:150-155 | the sweep keeps exactly the entries that are not expired at `now`, with their times unchanged |
| `DeathBan.RemoveExpired` | src/main/java/com/yourname/deathban/DeathBanMod.java:150-155 | removing expired entries one at a time over the entry set gives exactly the sweep's result |
| `DeathBan.Step` | src/main/java/com/yourname/deathban/DeathBanMod.java:32-71 | only ticks change the counter, and it stays within 0..1200; only deaths, joins and shutdown save; only deaths and joins disconnect; ticks and shutdown never add or alter an entry |
| `DeathBan.RunKeepsCounterInRange` | src/main/java/com/yourname/deathban/DeathBanMod.java:65-70 | in every run of events the tick counter stays within 0..1200 |
| `DeathBan.Tick` | src/main/java/com/yourname/deathban/DeathBanMod.java:66-69 | `tickCounter++ >= 1200` fires exactly when the counter is at least 1200 before the increment, and a firing tick resets it to 0; `SweepEvery1201Ticks` carries the consequence for the state machine |
| `DeathBan.RunTicksCounter` | src/main/java/com/yourname/deathban/DeathBanMod.java:65-70 | after k ticks from any reachable counter c, the counter is (c + k) mod 1201 |
| `DeathBan.SweepEvery1201Ticks` | src/main/java/com/yourname/deathban/DeathBanMod.java:65-70 | in a run of ticks from a zero counter, the k-th tick sweeps the ban list exactly when k is a multiple of 1201 and otherwise leaves it unchanged |
| `DeathBan.ExemptPlayerUntouched` | src/main/java/com/yourname/deathban/DeathBanMod.java:104-106 | an exempt player's death or join leaves the state unchanged, sends no message and saves nothing, at any time |
| `DeathBan.DeathRestartsBan` | src/main/java/com/yourname/deathban/DeathBanMod.java:108-111 | dying while banned restarts the ban at the new time and leaves the other entries as they were |
| `DeathBan.SweepIdempotent` | src/main/java/com/yourname/deathban/DeathBanMod.java:150-155 | a second sweep at the same time removes nothing |
| `DeathBan.SweepAgreesWithJoin` | src/main/java/com/yourname/deathban/DeathBanMod.java:119-155 | without wrap-around the sweep keeps an entry exactly when a join would be refused and drops it exactly when a join would lift the ban |
| `DeathBan.SavedFileReloads` | src/main/java/com/yourname/deathban/DeathBanMod.java:36-194 | a shutdown saves the current list unchanged; a later start from those bytes, for any iteration order, holds exactly the saved bans not yet expired, with the counter kept |
| `DeathBan.StartLeavesNoExpiredBan` | src/main/java/com/yourname/deathban/DeathBanMod.java:36-40 | after server start no ban in the list is already expired; without a file the start is just a sweep of the current list |
| `Scenarios.DefaultBanIsOneDay` | src/main/java/com/yourname/deathban/DeathBanMod.java:100 | the default configuration bans for 86 400 000 ms, shown as "24 hours 0 minutes" |
| `Scenarios.DeathStartsOneDayBan` | src/main/java/com/yourname/deathban/DeathBanMod.java:45-53 | with defaults, a death at time 0 bans the player from time 0, saves, and says "come back in 24 hours 0 minutes" |
| `Scenarios.JoinRefusedASecondLater` | src/main/java/com/yourname/deathban/DeathBanMod.java:119-128 | a second after that death the join is refused with "23 hours 59 minutes" and nothing changes |
| `Scenarios.JoinAdmittedADayLater` | src/main/java/com/yourname/deathban/DeathBanMod.java:129-132 | exactly one day after that death the join is admitted, the entry removed and the file saved |
| `Scenarios.OperatorDeathIgnored` | src/main/java/com/yourname/deathban/DeathBanMod.java:45-48 | with operators excluded, an operator's death changes nothing and disconnects nobody |
| `Scenarios.SweepKeepsUnexpired` | src/main/java/com/yourname/deathban/DeathBanMod.java:65-70 | with two bans of which one has expired, the 1201st tick keeps exactly the unexpired one, resets the counter and does not save |

## Left out

- Fabric event registration, the server lifecycle hooks, network disconnects and logging are
  engine glue. Each handler is a function of the current state. A disconnect is the message it
  would send, and the log lines are not modelled.
- `loadConfig` and `.properties` parsing (lines 73-102) depend on `java.util.Properties` and
  `Integer.parseInt`. `Config` is an input; only the fallback `Config(24, 0, true)` of line 100
  appears, as `DEFAULT_CONFIG`.
- `System.currentTimeMillis()` becomes the parameter `now`.
- `player.hasPermissionLevel(4)` belongs to the game engine. It is a boolean field of `Player`.
- File-system effects are not modelled: paths, `Files.exists`, `createDirectories` and stream
  opening. A file is its byte contents. A missing file is `None`. Other I/O failures are not
  modelled: a failing `createDirectories` in `loadBans` would also empty the list. A failed save
  is logged and keeps the in-memory list. `Files.newOutputStream` truncates the file when it
  opens it, so a write that fails after that (a full disk, say) leaves a truncated file, which
  the next start loads as an empty list (`BanFile.LoadCutShort`).
- `HashMap` iteration order is not fixed. The save order is a parameter, any enumeration of the
  map's keys, and the round trip holds for all of them.
- BanFile.Encode: requires at most `Integer.MAX_VALUE` entries. `HashMap.size()` is an `int`, and
  a larger map cannot be built in practice.
- Decimal.IntToString: assumes the default locale's zero digit is `'0'`. `String.format` localises
  the digits of `%d`, so a locale such as one with Arabic-Indic digits would show other characters.
- The join handler's null-player check is modelled as `None`.
- Player names appear only in log output and are not modelled.
