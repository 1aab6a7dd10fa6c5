# EPFL lockers poller, modelled in Dafny

The program polls the campus locker service. Each poll decodes the reply into a list of locker groups. A group gets a push notification on the `epfl_lockers` topic when its computed distance to a fixed point on campus is at most a configured maximum (the program swaps the axes of both points; see "## Left out"), or when its name is on a configured list. This project models the two pieces of that program that hold logic, and proves properties of them:

- **The response decoder** (`model.dfy`, module `Model`, over the JSON tree of `json.dfy`). It follows the fixed path `root[4]["0"]["rec"]["2"]["set"]` and reads the declared count from `set[1]`. Then it decodes that many records from `set[2 ..]`, each from its tagged fields `"1".str`, `"2".dbl`, `"3".dbl` and `"4".i32`. The first failure aborts the whole parse. `Parse` is the source's push loop. It is proved equal to the function `ParseTree`, and the lemmas are about `ParseTree`.
- **The configuration and one poll cycle** (`config.dfy`, module `Config`; `poll.dfy`, module `Poll`). `FromEnv` builds `Args` from the environment. It uses Rust's `str::split(',')` semantics (`Split`) and `u64::from_str` (`ParseU64`). `RunCycle` is the `for_each` over the decoded groups. For every in-range or name-matching group, in order, it prints a console line and sends `"Lockers available at " + name`. A failed send ends the cycle.

The `json` crate's behaviour is modelled in `json.dfy`. Indexing never fails: a missing key, an index past the end, or indexing a value that is not a container gives `JNull`. The accessors `as_str`, `as_f64`, `as_usize` and `as_i32` return an `Option`. `wrappers.dfy` holds the `Option` and `Result` types.

Two facts about the code shape the model:
- Errors are the code's own string messages (`DecodeError.Message`): a count error and one per field.
- A group's console line always contains `" and "`, because the flag is `is_in_range || name_matches`, and that is always true inside the branch (`ConsoleLineSaysAnd`).

## Model

| member | source | states |
|---|---|---|
| Json.AsStr | src/model.rs:58 | `as_str` gives a value exactly for strings, and that value is the string's text |
| Json.AsF64 | src/model.rs:60-61 | `as_f64` gives a value exactly for numbers, and that value is the number |
| Json.AsUsize | src/model.rs:47-49 | `as_usize` gives a value exactly for non-negative integral numbers below 2^64, and that value is the number |
| Json.AsI32 | src/model.rs:63 | `as_i32` gives a value exactly for integral numbers in the 32-bit signed range, and that value is the number |
| Json.WalkBroken | src/model.rs:45 | once any step of an indexing chain reaches `Null`, the whole chain yields `Null` |
| Model.FromJsonValue | src/model.rs:56-65 | succeeds iff all four tagged fields have the right type, and then returns exactly their values as name, (lat, long) and level. Otherwise it fails with the error of the first bad field, in the order name, lat, long, level |
| Model.RecordRoundTrip | src/model.rs:56-65 | a record built from a group's four tagged fields decodes back to that group |
| Model.Parse | src/model.rs:41-55 | the push loop returns exactly what `ParseTree` specifies, including the early exit on the first bad record |
| Model.DecodeRecordsStep | src/model.rs:50-52 | one loop iteration: a decoded record is appended after the earlier ones, and a failing record ends decoding with its error |
| Model.FailurePersists | src/model.rs:51 | after a record fails, decoding more records never recovers: the result stays that failure |
| Model.DecodeEachSuccess | src/model.rs:50-52 | decoding `count` items succeeds iff every item decodes; the result then has `count` elements and element `i` is item `i` |
| Model.DecodeEachFailure | src/model.rs:50-52 | a failed decoding carries the error of the first item that fails, and every item before it decodes |
| Model.DecodeEachOf | src/model.rs:50-52 | items that decode to `xs`, in order, make the loop return exactly `xs` |
| Model.DecodeEachReadsOnly | src/model.rs:50-51 | decoding `count` items depends on those items only |
| Model.ParseShape | src/model.rs:44-54 | a root that is not an array yields `Ok` with no groups; an array root whose `set[1]` has no `as_usize` value yields the count error; otherwise the result is the decoding of the declared records |
| Model.ParseSuccess | src/model.rs:47-52 | with a readable count, the parse succeeds iff every declared record decodes. The result then has exactly the declared length, and element `i` is the decoding of `set[i + 2]` |
| Model.ParseFirstFailure | src/model.rs:50-52 | all or nothing: a parse that fails on a record returns no list, only the error of the first declared record that does not decode |
| Model.ParseMissingPath | src/model.rs:45-49 | an array root where any step of `[4]["0"]["rec"]["2"]["set"]` is missing fails with the count error |
| Model.ParseOvercount | src/model.rs:50-58 | a count exceeding the records present always fails the parse. When every present record decodes, it fails with `name unknown`, from the `Null` found past the end |
| Model.ParseReadsOnly | src/model.rs:45-52 | two array roots agreeing on `set[1]` and on the declared records parse alike, so `set[0]` and the elements after `2 + count` are never inspected |
| Model.ParseRoundTrip | src/model.rs:41-65 | an envelope carrying any list of groups along the fixed path parses back to exactly that list |
| Config.FromEnv | src/main.rs:18-40 | reading the configuration fails iff `pc_session_id` cannot be read, with that variable's error; otherwise the session id is its value |
| Config.FromEnvOnlySession | src/main.rs:18-40 | no variable other than `pc_session_id` can make reading the configuration fail |
| Config.MaxDistanceFromEnv | src/main.rs:20-22 | `max_distance` is absent when the variable is absent or unreadable, and otherwise is the `f64` parse of its text (absent when that fails) |
| Config.ScanningIntervalFromEnv | src/main.rs:29-32 | the interval is 3600 when the variable is absent or not a `u64`, and otherwise the parsed value; the decimal text of any `u64` gives that number |
| Config.LockerGroupsFromEnv | src/main.rs:23-28 | the name list is absent iff the variable is. Otherwise it has one more entry than the text has commas, joins back with `','` to the text, is `[""]` for the empty text, and holds exactly the text's comma-separated fields |
| Config.SplitProperties | src/main.rs:24-27 | `split(',')` yields one more piece than separators, no piece holds a separator, the pieces join back to the text, and `""` splits to `[""]` |
| Config.JoinSplit | src/main.rs:24-27 | splitting the join of separator-free pieces gives back those pieces |
| Config.SplitFields | src/main.rs:24-27 | a string is among the split pieces iff it stands in the text between separators or ends and holds no separator |
| Config.ParseU64Decimal | src/main.rs:31 | `u64` parsing reads back the decimal text of any `u64`, with or without a leading `+` |
| Config.ParseU64Rejects | src/main.rs:31 | the empty text, a lone `+`, and text starting with `-` do not parse as `u64` |
| Poll.RunCycle | src/main.rs:51-83 | the cycle succeeds iff every notification request succeeds, and then sends exactly `Notifications`. Otherwise it stops right after the first failed request, having sent a prefix of `Notifications`. Before each request it prints the matching line of `ConsoleLines`, and every line contains `" and "` |
| Poll.NotificationsStep | src/main.rs:51-82 | the next group adds its notification, if it matches, after those of the groups before it |
| Poll.ConsoleLinesStep | src/main.rs:68-76 | the next group adds its console line, if it matches, after those of the groups before it |
| Poll.ConsoleLinesAppend | src/main.rs:51-76 | the console lines for two runs of groups are those of the first run followed by those of the second |
| Poll.ConsoleLinesPrefix | src/main.rs:51-76 | the console lines for the first groups come first among those for all groups |
| Poll.NotificationsAppend | src/main.rs:51-83 | the notifications for two runs of groups are those of the first run followed by those of the second, so group order is kept |
| Poll.NotificationsSingle | src/main.rs:68-81 | a single group yields exactly one notification, on topic `epfl_lockers` with message `Lockers available at <name>`, iff it is in range or its name matches. Otherwise it yields none |
| Poll.NotificationsPrefix | src/main.rs:51-83 | the notifications for the first groups come first among those for all groups |
| Poll.NotificationsMembers | src/main.rs:68-81 | a notification is sent iff some group that is in range or matches by name has it as its notification |
| Poll.NotificationsShape | src/main.rs:77-80 | every notification goes to topic `epfl_lockers` and its message starts with `Lockers available at ` |
| Poll.NoFilterNoNotifications | src/main.rs:54-68 | with neither a maximum distance nor a name list, a cycle sends nothing |
| Poll.InRangeNeedsMaximum | src/main.rs:54-61 | without a maximum distance no group is in range, whatever the distance; with one, a group is in range iff its distance to the fixed point is at most the maximum |
| Poll.NameMatchesFromEnv | src/main.rs:63-66 | for a configuration read from the environment, a name matches iff `locker_groups` is set and the name is one of its comma-separated fields, exactly |
| Poll.ConsoleLineSaysAnd | src/main.rs:68-76 | whenever the notify branch is taken, the printed line contains `" and "` |
| Poll.ExampleResponse | src/model.rs:41-65 | a crafted response of two groups decodes to exactly those two groups |
| Poll.ExampleCycle | src/main.rs:51-83 | with a 1000 m limit and the names `["B"]`, a group 500 m away is in range and a group 2000 m away is not. Group "B" matches by name and "A" does not. Together they yield exactly two notifications, in order |

## Left out

- Turning the response text into a JSON tree (`json::parse`, src/model.rs:42) belongs to the `json` crate. The model starts from the parsed tree, so the malformed-text error is not modelled.
- `LockerGroup::request` (src/model.rs:14-39) and `send_notification` (src/ntfy.rs) are HTTP I/O. The cycle starts from decoded groups. Whether the `k`-th notification request succeeds is the parameter `delivered`.
- The geodesic distance (Vincenty with a Haversine fallback, src/main.rs:55-59) is the uninterpreted parameter `distance`. Properties of the distance itself (zero for identical points, the antipodal fallback) are therefore not stated. The program builds both points as `point!(x: lat, y: long)` (src/main.rs:45, 52-53), but the geometry library reads x as the longitude. So the program measures between axis-swapped points, not from the group to the campus point. The model passes the same pairs to `distance` in the same order.
- Floating point: coordinates, distances and `max_distance` are exact `real` values. NaN, infinities and rounding are not modelled. The text syntax of `f64` (src/main.rs:22) is the parameter `parseF64`.
- Json.AsUsize, Json.AsI32: for numbers written with a fraction or exponent, the crate's own conversion rules are not modelled. The model accepts exactly the integral values in range.
- Json.AsStr: the crate's two string variants (`Short`, `String`) are one constructor. Objects are maps, so key order and duplicate keys are not modelled.
- Model.Parse: `index + 2` is unbounded here. In the source, that `usize` addition could only overflow for arrays of about 2^64 elements.
- Reading the process environment is a parameter `env`, with absent and non-Unicode values told apart as in `std::env::var`. The `unwrap` of `Args::from_env` in `main` is outside the model. `FromEnv`'s `Failure` is the error that `main` unwraps. Likewise `Parse`'s `Failure` is the error `main` unwraps after the request. The panics themselves are outside the model.
- The `"Querying lockers"` line, `sleep` and the endless `loop` (src/main.rs:46-47, 85) are left out: the model covers one cycle. The notifying console line is modelled as `ConsoleLine`.
- The serde and `Debug`/`Clone` derives on `LockerGroup` and `Args`, and the unused `level` in filtering, carry no logic.
