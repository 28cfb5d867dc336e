# A verified model of the device platform

This project models the parts of the platform whose correctness is decided by code of its own,
and proves what that code keeps. `dafny verify dfyconfig.toml` checks all of it (Dafny 4.11).

| file | what it models |
|---|---|
| `JsonBigInt.dfy` | the scanner of `parseJsonSafe`, with its loops, against a piece-by-piece specification |
| `JsonTheorems.dfy` | conservation, idempotence, and the meaning of the rewriting on JSON values (RFC 8259) |
| `JsonQuoting.dfy` | which integers of an arbitrary text get quoted, defined position by position |
| `OtaUpdates.dfy` | firmware updates: cached device fields against history rows, over all runs |
| `OtaFields.dfy` | every cached field and every field of the newest row, told from the run alone |
| `OtaInterleavings.dfy` | triggers of updates interleaved at their awaits, with each other and with reports |
| `DevicePresence.dfy` | online/offline state, status events and actuator state: the four handlers |
| `PresenceRuns.dfy` | what runs of those handlers keep, atomic and interleaved at their awaits |
| `MqttTopics.dfy` | default topics, the seven regular expressions, order-free classification |
| `TopicCache.dfy` | the custom-topic lookup, the cache in front of it, and the routing of a message |
| `TopicCacheRuns.dfy` | agreement of cache and table over runs, staleness, lost clears |
| `AlertRules.dfy` | the threshold rule and anomaly rule grammars |
| `TelemetryWarnings.dfy` | the threshold listener and the breach count |
| `HealthScoring.dfy` | device and asset health scores over exact reals |
| `Passwords.dfy` | the in-place shuffle and the password generator |
| `VietnameseLetters.dfy` | the folding of Vietnamese letters, one key at a time, against Unicode |
| `Slugs.dfy` | slugs |
| `Text.dfy`, `Wrappers.dfy` | `trim`, ASCII case and `Option`, shared by the others |

Code that updates state step by step is a class or a method with loops whose contract ties it to
a specification function; the theorems are about those functions. Database rows are values, a
table is a map or a sequence, every handler takes the time and the outcome of publishing as
inputs, and random numbers are inputs. A run is a sequence of steps of any length. Text is a
sequence of characters; every character the code tests for is ASCII except in `trim` and the
letter table, so it does not matter whether other characters count as one unit or two.

## Where a promise does not hold

Each line names a lemma at an input that breaks the promise, and the lemma with the exact condition.

| promise | breaks at | holds exactly |
|---|---|---|
| only bare integers of a JSON text are quoted, its meaning stays: not so for a fraction without exponent, or an exponent, above 2^53 - 1 | `LongFractionIsBroken` | `RewritePreservesMeaning` |
| one attempt at a time: not so after an `IDLE` report on an attempt that has not ended | `IdleReportLosesTrack` | `OneOpenExactly` |
| the trigger's guard knows whether an update is in flight: not so after a progress report without an open attempt, or `IDLE` with one | `LateReportBlocks` | `InFlightExactly` |
| the cached `ota*` fields always reflect the current attempt: not so when a trigger is overtaken between its read and its two saves | `SecondTriggerIsNotStopped`, `ReportBeforeSaveIsLost` | `TriggersInterleavedExactly` |
| offline alerts fire once per outage: not so when the handlers of a device interleave badly; keeping the order of reads, writes and emissions (`InterleavingsExactly`) is enough for the emitted events, and exact for those emitted and due | `TwoTelemetriesAnnounceTwice`, `LateEmissionInvertsTheEvents` | `VisibleExactly` |
| no device is marked OFFLINE within 60 s of being heard: not so when it is heard between the query and the update of a sweep | `HeardButSwept` | `SweepHitsHeardExactly` |
| `channelStates` holds the last value of each channel: not so when two events read the same row | `LaterWriteLosesChannel` | `ChannelWriteExactly` |
| a channel event always marks its device ONLINE: not so for a successful one without a key; the model follows the code, not the comment | `KeylessEventIsIgnored` | `ChannelEventMarksOnlineExactly` |
| a default topic routes back to its device: not so for an id with a slash, which registration accepts | `SlashMisroutes` | `DefaultTopicsRoute` |
| the topic cache answers as the table would: not so after a deletion or a change of push channel, which never clear it, nor after a lookup that is pending across a clear or falls between it and the commit | `DeletedDeviceIsStillServed`, `ClearDuringLookupIsLost`, `ClearBeforeCommitIsLost` | `AgreementExactly` |
| the condition expression splits a text in one way: not so when white space precedes the operator | `TwoSplitsExist` | `SplitIsUniqueExactly` |
| a rule is either an alert or an anomaly: not so for an anomaly with a condition before a colon in `metric.field` | `ConfusingRuleExists` | `ConfusionExactly` |
| a device left alone never scores higher: not so when its breaches fall out of the 30-day window | `SilenceCanHeal` | `EmptyWindowRaisesExactly` |
| a node of weight 0 is excluded: not so on an asset with no other node | `ZeroWeightExcludesExactly` (last clause) | `ZeroWeightExcludesExactly` |

## Model

| member | source | states |
|---|---|---|
| JsonBigInt.ParseJsonSafe | web/src/lib/api-client.ts:11-56 | The scanner, with its index running past the end on a trailing backslash and its 15-digit shortcut, produces the specified rewriting of every text |
| JsonBigInt.CopyString | web/src/lib/api-client.ts:18-32 | A string literal, escaped quotes and unterminated ends included, is copied unchanged up to its end |
| JsonBigInt.CopyNumber | web/src/lib/api-client.ts:34-51 | One maximal integer token is copied, or quoted exactly when it is bare and above 2^53 - 1 |
| JsonBigInt.ShortRunsAreSafe | web/src/lib/api-client.ts:43-44 | No run of up to 15 digits is out of range, so the length test never changes a decision |
| JsonTheorems.Conservation | web/src/lib/api-client.ts:15-54 | For every text, the output is the input cut into pieces with two quotes around each quoted piece, and nothing else |
| JsonTheorems.RewriteIdempotent | web/src/lib/api-client.ts:15-54 | Rewriting a rewritten text changes nothing, for every text |
| JsonTheorems.RewritePreservesMeaning | web/src/lib/api-client.ts:9-56 | The text of a JSON value with any white space becomes the text of the value with its out-of-range integers turned into strings, if and only if no float has a mistaken digit run |
| JsonTheorems.LongFractionIsBroken | web/src/lib/api-client.ts:39-53 | The number 0.12345678901234567 is rewritten with quotes around its fraction |
| JsonQuoting.QuotesExactlyBigIntegers | web/src/lib/api-client.ts:9-54 | For every text and position, a quoted piece starts there exactly when a maximal integer above 2^53 - 1 starts there, outside string literals and not as the head of a float |
| OtaUpdates.ParseOtaStatusExact | src/modules/device/device-ota.service.ts:42-46 | A status is recognised exactly from its name in any case with white space around it |
| OtaUpdates.ClampProgress | src/modules/device/device-ota.service.ts:38-40 | The nearest whole percentage, never outside 0..100 |
| OtaUpdates.LatestIndex | src/modules/device/device-ota.service.ts:255 | The row with the greatest request time |
| OtaUpdates.DeviceOtaService.TriggerUpdate | src/modules/device/device-ota.service.ts:73-159 | The outcome in the order the checks are made; anything but acceptance changes nothing; acceptance resets the cached fields, adds one open row and emits one event, for this device only |
| OtaUpdates.DeviceOtaService.HandleOtaStatusReport | src/modules/device/device-ota.service.ts:222-281 | Unknown devices and statuses change nothing; otherwise the cached fields, and the newest row while it is open, take over the report, and one event is emitted |
| OtaUpdates.NextKeepsRows | src/modules/device/device-ota.service.ts:239-271 | One step keeps every row proper and changes rows only as allowed |
| OtaUpdates.RowsOverRuns | src/modules/device/device-ota.service.ts:239-271 | Over every run at all: a row is completed exactly when SUCCESS or FAILED and never changes afterwards, its start is written once, it has an error exactly when FAILED, SUCCESS means 100, progress stays in 0..100 |
| OtaUpdates.RunsAgree | src/modules/device/device-ota.service.ts:98-148 | In every run of triggers at increasing times and reports other than IDLE at most one row is open; it is the newest, equals the cached status, progress, versions, firmware and request time, and blocks any new trigger |
| OtaUpdates.RunKeepsTracked | src/modules/device/device-ota.service.ts:253-271 | Even with IDLE reports the newest row, while open, equals the cached fields |
| OtaUpdates.ReportsTellState | src/modules/device/device-ota.service.ts:231-271 | The reports since the last accepted trigger determine the cached status, and the newest row is open exactly while none of them was SUCCESS or FAILED |
| OtaUpdates.OneOpenExactly | src/modules/device/device-ota.service.ts:98-100 | Over every run, more than one row is ever open if and only if a trigger is accepted when the reports since the last accepted one end in IDLE and none was SUCCESS or FAILED |
| OtaUpdates.SecondOpenRowExactly | src/modules/device/device-ota.service.ts:98-148 | Such a trigger is accepted only when the cached status is IDLE |
| OtaUpdates.IdleReportLosesTrack | src/modules/device/device-ota.service.ts:231-237 | Trigger, IDLE report, trigger: two open rows |
| OtaUpdates.OlderRowsAreFrozen | src/modules/device/device-ota.service.ts:255-271 | A row that is not the newest is never written again, so an abandoned open row stays open |
| OtaUpdates.InFlightExactly | src/modules/device/device-ota.service.ts:98-100 | Over every run, IDLE reports included, the guard is right about an update in flight throughout if and only if no progress report comes while no row is open and no IDLE report while one is; and then the cached fields agree with the history |
| OtaUpdates.LateReportBlocks | src/modules/device/device-ota.service.ts:98-100 | A DOWNLOADING report after SUCCESS: no row is open, and every later trigger is refused |
| OtaFields.TriggerChecksExactly | src/modules/device/device-ota.service.ts:73-127 | A trigger is accepted exactly when its eight checks pass, and else fails with the first that does not |
| OtaFields.InstalledVersionOverRuns | src/modules/device/device-ota.service.ts:246-248 | Over every run the installed version is that of the last SUCCESS report that carries one, else the one at the start |
| OtaFields.CachedFieldsOverRuns | src/modules/device/device-ota.service.ts:129-251 | Over every run the cached progress is 0 at an accepted trigger, 100 at SUCCESS, else the last reported percentage; the error is that of the last FAILED report unless a trigger or SUCCESS came after it; the time stamp is that of the last of them |
| OtaFields.TargetOverRuns | src/modules/device/device-ota.service.ts:129-136 | Over every run target version, firmware and request time are those of the last accepted trigger, and owner, template and channel never change |
| OtaFields.NewestRowOverRuns | src/modules/device/device-ota.service.ts:138-271 | In every ordered run the newest row is that of the last accepted trigger, started at its first DOWNLOADING or INSTALLING report, and completed by its first SUCCESS or FAILED report, with that status, time and error |
| OtaInterleavings.UninterruptedTrigger | src/modules/device/device-ota.service.ts:73-148 | A trigger whose publish, device save and row save follow each other is the atomic one |
| OtaInterleavings.TriggersInterleavedExactly | src/modules/device/device-ota.service.ts:102-148 | Over every interleaving of triggers at those awaits with each other and with reports, the cached fields agree with the history throughout if and only if no IDLE report comes and no device is saved while a row is open, and no row is inserted while one is open, behind a later one, or after another save of the device |
| OtaInterleavings.SecondTriggerIsNotStopped | src/modules/device/device-ota.service.ts:98-148 | Two triggers that read the device before either saved it open two rows |
| OtaInterleavings.ReportBeforeSaveIsLost | src/modules/device/device-ota.service.ts:129-136 | A report between the publish and the save of a trigger leaves no trace after the save |
| DevicePresence.ParseStatusExact | src/modules/device/device.service.ts:1129-1144 | A status is read from the words ONLINE and OFFLINE in any case with white space around them, and from nothing else |
| DevicePresence.FailedExactly | src/modules/device/device.service.ts:963 | An event reports a failure exactly when its status is the word error in any case with white space around it |
| DevicePresence.DeviceService.RecordTelemetry | src/modules/device/device.service.ts:853-895 | Telemetry marks the device ONLINE and seen now, with a status event if it was not ONLINE |
| DevicePresence.DeviceService.HandleDeviceStatusMessage | src/modules/device/device.service.ts:898-930 | A recognised status is stored, seen now if ONLINE, with an event if it differs |
| DevicePresence.DeviceService.HandleDeviceChannelEvent | src/modules/device/device.service.ts:948-1007 | Failed, keyed and other events as specified, with their result and status events |
| DevicePresence.DeviceService.SweepOfflineDevices | src/modules/device/device.service.ts:1046-1069 | Exactly the stale devices turn OFFLINE, with one event each in query order |
| PresenceRuns.NextForDevice | src/modules/device/device.service.ts:853-1069 | Seen from one device, a step of the store is at most one handler run on its own row, and no step touches another device |
| PresenceRuns.EventsAlternate | src/modules/device/device.service.ts:875-930 | Over every run of messages and sweeps the status events of each device alternate starting with ONLINE, and the stored status is the last one |
| PresenceRuns.OneWarningPerOutage | src/modules/notification/listeners/device-warning.listener.ts:19-38 | On alternating events there is exactly one warning for each ONLINE-OFFLINE pair at whose end the rule is enabled, and no other |
| PresenceRuns.LastSeenIsLastHeard | src/modules/device/device.service.ts:877-925 | The stored last-seen time is that of the last message heard, and an ONLINE device has one |
| PresenceRuns.StatusIsLastVerdict | src/modules/device/device.service.ts:853-1060 | Over every run the stored status is the last word on it: a sign of life, an OFFLINE message, or a sweep that lists the device |
| PresenceRuns.EventsReportChanges | src/modules/device/device.service.ts:887-1067 | Each status event of a step carries its time and the new status of a device whose status the step has changed |
| PresenceRuns.HeardExactly | src/modules/device/device.service.ts:875-1001 | A device proves itself alive by telemetry, the word ONLINE, and channel events that report a failure or name a channel |
| PresenceRuns.SweepsExactlyTheSilent | src/modules/device/device.service.ts:1046-1060 | A sweep that is not interrupted turns a device OFFLINE exactly when it is ONLINE and was last heard more than 60 s before |
| PresenceRuns.SweepHitsHeardExactly | src/modules/device/device.service.ts:1049-1060 | An interrupted sweep turns OFFLINE a device that is no longer stale exactly when that was stale at the query and has been heard since |
| PresenceRuns.HeardButSwept | src/modules/device/device.service.ts:1049-1060 | A run that keeps every order and marks a device OFFLINE at the moment it is heard |
| PresenceRuns.SilentDevicesGoOffline | src/modules/device/device-status.scheduler.ts:13-20 | With sweeps at most 10 s apart, a device last heard at t is OFFLINE at every moment after t + 70 s until heard again |
| PresenceRuns.ChannelsHoldLastValues | src/modules/device/device.service.ts:963-997 | After any run the channel map holds the value of the last non-failed event for each key and nothing else, and each keyed event had exactly one action result |
| PresenceRuns.HandleConsistentExactly | src/modules/device/device.service.ts:875-930 | A handler that decided on an earlier read keeps the events, its own counted as it writes, consistent exactly when it writes nothing or the status has not changed since |
| PresenceRuns.InterleavingsExactly | src/modules/device/device.service.ts:853-1069 | Over every interleaving of the handlers of a device at their awaits before the write and before the emission, the events emitted and due alternate and match the status throughout if and only if none is overtaken between read and write and events are emitted in the order of the writes |
| PresenceRuns.VisibleExactly | src/modules/device/device.service.ts:875-1067 | Over every interleaving, the emitted events alternate and match the status whenever none is due, if and only if no emission repeats the last status or contradicts the stored one as the last due, and no write changes the status silently with none due; keeping the order is enough |
| PresenceRuns.TwoTelemetriesAnnounceTwice | src/modules/device/device.service.ts:875-894 | Two telemetry messages that read the same OFFLINE row announce ONLINE twice |
| PresenceRuns.LateEmissionInvertsTheEvents | src/modules/device/device.service.ts:877-929 | Telemetry that writes ONLINE and emits after a later status message has announced OFFLINE leaves ONLINE as the last event of an OFFLINE device; in the order of the writes the same overlap is harmless |
| PresenceRuns.ChannelEventMarksOnlineExactly | src/modules/device/device.service.ts:945-1001 | A channel event leaves its device ONLINE exactly when that was ONLINE or the event failed or has a key; any other event changes nothing |
| PresenceRuns.ChannelWriteExactly | src/modules/device/device.service.ts:983-985 | A channel event keeps all other channels exactly when the map it read still agrees on them |
| PresenceRuns.OtherHandlersKeepChannels | src/modules/device/device.service.ts:877-970 | Telemetry, status messages, sweeps and failed or keyless events leave the channel map as it is |
| PresenceRuns.LaterWriteLosesChannel | src/modules/device/device.service.ts:983-985 | Two events for two channels that read the same row: the second write removes the first channel |
| MqttTopics.ExecExact | src/constants/mqtt-topics.ts:34-40 | The executable reading of each expression accepts its language and captures the device id |
| MqttTopics.RolesAreDisjoint | src/constants/mqtt-topics.ts:34-40 | No topic matches two of the seven expressions |
| MqttTopics.DefaultTopicsRoute | src/constants/mqtt-topics.ts:10-32 | A default topic of any device id is classified for that device in its own role if and only if the id is not empty and has no slash |
| MqttTopics.SlashMisroutes | src/constants/mqtt-topics.ts:10-40 | The status topic of a device `x/ota` is classified as an OTA report of device `x` |
| MqttTopics.ClassifiedTopicsAreDefault | src/constants/mqtt-topics.ts:10-40 | Conversely a topic classified for a role other than a channel command is the default topic of that device |
| MqttTopics.ChannelCommandsAreDefaultExactly | src/constants/mqtt-topics.ts:25-40 | A topic classified for a channel command is the default one of some channel if and only if its number has no leading zero |
| MqttTopics.OrderDoesNotMatter | src/modules/mqtt/mqtt.controller.ts:38-90 | Any order of the seven tests classifies every topic alike |
| TopicCache.LookupByFields | src/modules/device/device.service.ts:811-851 | The lookup finds the first MQTT device that names the topic in any override, as telemetry, status or event by the field that has it, in this order, and as a command otherwise; it finds nothing exactly when no MQTT device names the topic |
| TopicCache.CustomTopicsAreHandled | src/modules/mqtt/mqtt.controller.ts:113-155 | A custom topic reaches the service call of its field on that device, and none for a downlink field or no device |
| TopicCache.DefaultTopicsAreHandled | src/modules/mqtt/mqtt.controller.ts:42-85 | Each default topic, spelled out, reaches the service call of its kind, and downlink topics none |
| TopicCache.AnswersAreRemembered | src/modules/mqtt/mqtt.controller.ts:114-135 | A lookup that found nothing silences its topic for exactly 60 s; one that found something is answered from the cache from then on |
| TopicCache.MqttController.ResolveCustomTopic | src/modules/mqtt/mqtt.controller.ts:113-137 | A hit or recent miss is answered from the cache, anything else by the lookup, whose answer is recorded |
| TopicCache.MqttController.HandleAny | src/modules/mqtt/mqtt.controller.ts:38-90 | The branches send a topic where its classification says, and use the cache for custom topics only |
| TopicCacheRuns.RowChangeExactly | src/modules/device/device.service.ts:811-851 | Changing a row changes the lookup of a topic exactly when no earlier row has the topic and the role that this row gives to it changes |
| TopicCacheRuns.RemovalExactly | src/modules/device/device.service.ts:811-851 | Removing a row changes the lookup of a topic exactly when it named the device of that row |
| TopicCacheRuns.CoherentExactly | src/modules/mqtt/mqtt.controller.ts:113-137 | From a coherent cache a step spoils it exactly when it records an expired answer, deletes or takes off MQTT a device that a hit names, puts one on MQTT that is the first to have a cached topic, or commits another role for a topic looked up since its clear |
| TopicCacheRuns.AgreementExactly | src/modules/mqtt/mqtt-topic-registry.service.ts:13-24 | Over every run, lookups and updates interleaved or not, cache and table agree throughout if and only if no step passes one of those guards |
| TopicCacheRuns.CoveredRunsAgree | src/modules/device/device.service.ts:364-369 | In every run with atomic lookups whose topic changes carry `mqtt` and commit before the next lookup is recorded, each message is dispatched as a fresh lookup would have it |
| TopicCacheRuns.CoveredRunsHandle | src/modules/mqtt/mqtt.controller.ts:38-155 | In such a run every topic, default or custom, reaches the handler that the table alone would choose |
| TopicCacheRuns.RegisterKeepsLookup | src/modules/device/device.service.ts:161-171 | Registering a device changes no lookup |
| TopicCacheRuns.UpdateExact | src/modules/device/device.service.ts:328-338 | After an update a device names the topics it carries, else the ones it had, while the update, else its old channel, makes it an MQTT device |
| TopicCacheRuns.StalenessIsBounded | src/modules/mqtt/mqtt-topic-registry.service.ts:34-54 | Over all runs whatsoever, lookups interleaved or not, what the cache answers was the answer of a lookup recorded since the last clear, and a message is dropped unlooked only if one that found nothing was recorded under 60 s ago |
| TopicCacheRuns.HitsOutliveChanges | src/modules/device/device.service.ts:364-369 | In every run with atomic lookups a hit survives messages, deletions and push-channel changes until an update that carries `mqtt` |
| TopicCacheRuns.DeletedDeviceIsStillServed | src/modules/mqtt/mqtt.controller.ts:114-120 | After a deletion the cached topic is still dispatched to the deleted device |
| TopicCacheRuns.ClearDuringLookupIsLost | src/modules/mqtt/mqtt.controller.ts:126-135 | An update that clears while a lookup awaits leaves a hit that no longer holds |
| TopicCacheRuns.ClearBeforeCommitIsLost | src/modules/device/device.service.ts:312-369 | A lookup between the clear of an update and the commit of its transaction leaves a hit that no longer holds |
| AlertRules.ChannelStateExact | src/modules/device/device.service.ts:1147-1162 | An action is read exactly from a key without `=` and a value, neither empty, joined by `=` with any white space around both |
| AlertRules.ConditionExact | src/modules/device/device.service.ts:1279-1283 | The condition parser accepts exactly the texts of its expression |
| AlertRules.CutsAreParsed | src/modules/device/device.service.ts:1279-1289 | However a text matches, the parser returns that match with the shortest field, as the lazy group does |
| AlertRules.ConditionIsUnambiguous | src/modules/device/device.service.ts:1279 | All matches of a text agree on metric, operator, threshold and the gap between them; only white space before the operator can be shared out differently |
| AlertRules.SplitIsUniqueExactly | src/modules/device/device.service.ts:1279 | A text has one match only if and only if what stands before its operator is a single character or does not end in white space |
| AlertRules.TwoSplitsExist | src/modules/device/device.service.ts:1279 | The text `a.b >5` matches with field `b` and with field `b` and a space |
| AlertRules.RuleReadsBack | src/modules/device/device.service.ts:1272-1298 | Every well-formed rule, with any white space around the operator, the colon and the equals sign, with no action, `none` in any case, or an action, parses back to its parts |
| AlertRules.ActionExactly | src/modules/device/device.service.ts:1277-1297 | The action of any accepted rule is what the text after its first colon reads as; without a colon, and for `none`, there is no action |
| AlertRules.AnomalyReadsBack | src/modules/device/device.service.ts:1241-1260 | Every anomaly rule parses back to its five parts whatever white space it uses |
| AlertRules.AnomalyIsPrinted | src/modules/device/device.service.ts:1241-1260 | Conversely what the anomaly parser accepts is the print of its result |
| AlertRules.NoConfusionWithoutColon | src/modules/device/device.service.ts:1205-1230 | On rules without a colon no rule is accepted by both parsers, so their order does not matter |
| AlertRules.ConfusionExactly | src/modules/device/device.service.ts:1205-1230 | Among all rules that the anomaly parser accepts, the alert parser accepts those whose metric and field hold a colon with a threshold condition before it, and the order of the parsers decides for exactly those |
| TelemetryWarnings.WarnsExactly | src/modules/notification/listeners/device-warning.listener.ts:82-103 | A warning is raised exactly for a reading below its lower or above its upper bound on a field not switched off, the device's own bounds before those of the template |
| TelemetryWarnings.CheckedExactly | src/modules/device/device-lifecycle.service.ts:259-279 | A reading is checked exactly when its field is not switched off and has some bound |
| TelemetryWarnings.WarnedExact | src/modules/notification/listeners/device-warning.listener.ts:62-79 | Warnings come field by field in schema order, each field having its own or none |
| TelemetryWarnings.HandleTelemetry | src/modules/notification/listeners/device-warning.listener.ts:54-80 | One warning for each field in breach, in schema order |
| TelemetryWarnings.GetTelemetryBreachCounts | src/modules/device/device-lifecycle.service.ts:239-298 | The two counts are the numbers of record-field pairs that the listener would warn about and could check, and breaches never exceed checks |
| TelemetryWarnings.BreachesAreWarningsSent | src/modules/device/device-lifecycle.service.ts:257-287 | The breaches counted are the warnings the listener sends for the same records under the same bands |
| HealthScoring.AgeScoreIsLinear | src/common/health-scoring.util.ts:18-23 | 100 up to installation, 0 from the end of life, the nearest integer to the linear decline in between |
| HealthScoring.ConnectivityIsLinear | src/common/health-scoring.util.ts:39-40 | Within 72 hours of silence the nearest integer to the linear decline |
| HealthScoring.TelemetryIsLinear | src/modules/device/device-lifecycle.service.ts:216-229 | 100 without checks, else the nearest integer to the share of checks not breached |
| HealthScoring.DeviceScoreIsAverage | src/modules/device/device-lifecycle.service.ts:27-33 | The weights sum to 1: the device score lies between its factors |
| HealthScoring.DeviceWeights | src/modules/device/device-lifecycle.service.ts:27-33 | 4 points of age are worth 1 of the device score, 20 of connectivity 7, and 5 of telemetry 2 |
| HealthScoring.StageExact | src/modules/device/device-lifecycle.service.ts:189-201 | Decommissioned devices stay so, one never heard within 14 days of installation is NEW, and the others are staged at 80, 60 and 35 |
| HealthScoring.NeglectNeverHeals | src/modules/device/device-lifecycle.service.ts:134-202 | A device whose status and last sign of life stay as they are, with no lower breach ratio or an emptied window after at most one breach in 200 checks, never scores higher later, and past the NEW rule its stage never improves |
| HealthScoring.EmptyWindowRaisesExactly | src/modules/device/device-lifecycle.service.ts:216-255 | An emptied telemetry window raises the telemetry score if and only if more than one check in 200 was breached |
| HealthScoring.SilenceCanHeal | src/modules/device/device-lifecycle.service.ts:134-255 | A silent device scores 25 after four days and 65 after forty, when its breaches have left the window |
| HealthScoring.ComputeFactors | src/modules/asset/asset-health.service.ts:120-199 | The loop's three scores are the age score, the weighted mean connectivity and the weighted breach ratio, and 100 where nothing counts |
| HealthScoring.ConnectivityIsAverage | src/modules/asset/asset-health.service.ts:153-175 | Pooled connectivity lies between the lowest and highest score of the positive-weight nodes |
| HealthScoring.BreachRatioIsAverage | src/modules/asset/asset-health.service.ts:169-185 | The pooled breach ratio lies between the lowest and highest ratio of the positive-weight nodes with checks, and the telemetry score accordingly |
| HealthScoring.NothingCountsIsHealthy | src/modules/asset/asset-health.service.ts:175-185 | Nodes that all weigh nothing leave connectivity and telemetry at full score |
| HealthScoring.AssetScoreIsAverage | src/modules/asset/asset-health.service.ts:19-26 | The weights sum to 1: the asset score lies between its factors |
| HealthScoring.AssetWeights | src/modules/asset/asset-health.service.ts:19-26 | 5 points of age are worth 1 of the asset score, 10 of connectivity 3, and 2 of telemetry 1 |
| HealthScoring.AssetStatusExact | src/modules/asset/asset-health.service.ts:28-118 | An asset with nodes is HEALTHY from 80 on and CRITICAL below 50 |
| HealthScoring.OneFactorLost | src/modules/asset/asset-health.service.ts:85-118 | Losing only telemetry leaves 50, only connectivity 70, only age 80 |
| HealthScoring.AssetScoreInRange | src/modules/asset/asset-health.service.ts:91-118 | An asset with nodes scores within 0..100; one without has no score and status UNKNOWN, and only that one |
| HealthScoring.OrderDoesNotMatter | src/modules/asset/asset-health.service.ts:159-173 | Listing the nodes in another order changes nothing |
| HealthScoring.ScaleDoesNotMatter | src/modules/asset/asset-health.service.ts:159-185 | Multiplying all weights by a positive factor changes nothing |
| HealthScoring.ZeroWeightExcludesExactly | src/modules/asset/dtos/update-asset-node.dto.ts:4-6 | A node of weight 0 changes nothing if and only if there is another node; alone, it turns no score into one |
| HealthScoring.SingleNodeSpeaksForItself | src/modules/asset/asset-health.service.ts:175-185 | An asset with one node that counts has that node's own connectivity and telemetry scores |
| Passwords.ShuffleIsBijective | web/src/lib/generate-password.ts:19-28 | Over distinct items the choice vectors correspond one-to-one to the orders of the items |
| Passwords.DrawsCoverChoices | web/src/lib/generate-password.ts:22-24 | Every choice vector comes from some random numbers |
| Passwords.ChoiceAtExact | web/src/lib/generate-password.ts:22-24 | Random numbers pick the choices at an index one after the other, over and over |
| Passwords.Shuffle | web/src/lib/generate-password.ts:19-28 | The in-place loop on a copy computes the shuffle of its choices and leaves the items as they are |
| Passwords.ShuffledIsPermutation | web/src/lib/generate-password.ts:21-26 | A shuffle only reorders |
| Passwords.RandomCharExact | web/src/lib/generate-password.ts:13-17 | Random numbers pick the characters of a set one after the other, over and over, so each can come out |
| Passwords.CharsetExact | web/src/lib/generate-password.ts:1-48 | A set holds exactly the characters of the enabled classes |
| Passwords.GeneratePassword | web/src/lib/generate-password.ts:30-50 | The password is a shuffle of one pick from each enabled class and picks from the whole set; it has the wanted length unless there are more enabled classes, uses enabled classes only, and has a character of each |
| VietnameseLetters.ViToAscii | web/src/utils/string.ts:145-151 | Replacing one key at a time equals one simultaneous replacement by the whole table |
| VietnameseLetters.ViMapIsIndependent | web/src/utils/string.ts:8-143 | No value of the table is one of its keys |
| VietnameseLetters.ViMapExact | web/src/utils/string.ts:8-151 | The table folds exactly the 134 accented Vietnamese letters, given by code point, each to the letter it is built on in its own case |
| Slugs.SlugifyInSteps | web/src/utils/string.ts:152-159 | The four reassignments compute the slug |
| Slugs.SlugifyJoinsWords | web/src/utils/string.ts:152-159 | The slug of a text is the maximal alphanumeric words of its folded and lower-cased characters, in order, joined by single dashes |
| Slugs.CaseDoesNotMatter | web/src/utils/string.ts:154-155 | Texts whose folded characters have the same lower case have the same slug |
| Slugs.FixedExactlySlugs | web/src/utils/string.ts:152-159 | Every result has the shape of a slug, and a text is its own slug if and only if it has that shape |
| Slugs.SlugifyIdempotent | web/src/utils/string.ts:152-159 | Slugs are fixed points |

## Left out

- OtaUpdates.DeviceOtaService.TriggerUpdate: the method is one atomic step; `OtaInterleavings` has its awaits.
- OtaInterleavings.TriggersInterleavedExactly: a report is one step, and saving a device writes every column as it was read.
- OtaUpdates.ParseOtaStatusExact: letters outside ASCII whose upper case is ASCII are not modelled; the same holds for status payloads and the word `none`.
- OtaUpdates.ClampProgress: `NaN` and non-numeric progress are not modelled.
- PresenceRuns.SilentDevicesGoOffline: at exactly t + 70 s the device may still be ONLINE, because the sweep compares strictly and may run only at that moment.
- PresenceRuns.InterleavingsExactly: interleaves the handlers of one device; a write or a telemetry insert that fails, and the time stamps of the writes, are not part of the condition.
- DevicePresence.DeviceService.HandleDeviceChannelEvent: the `device.channelState` event, which repeats the stored map, is not modelled, and a `null` value counts as absent.
- TopicCacheRuns.CoherentExactly: two updates of one device at the same time are not modelled; an update reads and commits its row in one step.
- TopicCache.LookupByFields: `getOne` is the first row in table order; the database may choose any order.
- Passwords.ShuffleIsBijective: the remainder of a 32-bit number is slightly biased; probabilities are not modelled.
- Slugs.SlugifyIdempotent: what `toLowerCase` makes of a character is a parameter; it must keep `a-z`, `0-9` and `-`.
- HealthScoring.ComputeFactors: sums are exact reals, not floating point; the per-node breakdown and detail texts are not modelled.
- `JSON.parse`, key camelizing and everything after the rewriting of the text.
- Number conversion of thresholds, z-scores and progress texts: numbers in rules stay decimal lexemes.
- The message texts, channels and delivery of notifications, and the recording of unclaimed devices.
- `getHistory`, `getManifest` and the boot configuration: read-only views of the same rows.
- The 30-day window and the 500-record limit of the breach count: the records are an input.
- Kafka, MQTT, HTTP and database clients, transactions, access scopes, DTO validation and the user interface.
