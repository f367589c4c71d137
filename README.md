# Agent framework infrastructure: a Dafny model

This project models the five stateful components of an agent-orchestration framework in Dafny and proves their behaviour:

- **LocalMemory** is a scoped memory with three tables (ephemeral, session, global). Each table maps a key to a value and an expiry instant 24 hours after the store. Expired entries are purged before every operation. A case-insensitive text search runs over keys and values. A log of failure patterns is cut back to its newest 500 entries once it grows past 1000.
- **ConsoleTracer** is an in-memory log of trace events, grouped by trace id in recording order.
- **JsonSnapshotManager** keeps a directory of snapshot records. A record holds an id, a label, a timestamp, the captured execution context and an expiry 24 hours later. Snapshots can be restored while they have not expired, listed, and deleted.
- **AgentRegistry** maps names to agents. A duplicate name is rejected. Agents can be looked up by name or by role, and a role lookup returns the earliest-registered agent with that role.
- **ToolRegistry** maps names to tools. When a name is registered twice, the last registration wins.

Each component is a Dafny `class` whose fields are the component's own state:

- the memory tables and the failure-pattern log;
- the trace map, plus a ghost log of every event;
- the snapshot directory, as a map from id to record;
- the agent and tool dictionaries.

Mutating operations are methods. Their `modifies` clauses and `ensures` state the complete new state, in terms of specification functions. The loops in the source (collecting and then deleting expired keys, the search, the role lookup, the snapshot listing) are `for`/`while` loops with invariants. Lemmas about the specification functions state the promised properties.

Shared modules:

- `Dicts` models a Python `dict` as an insertion-ordered association list, with lookup, assignment, deletion and comprehension. Its lemmas cover distinct keys, replacement, appending a new key and last-write-wins.
- `Text` models ASCII lower-casing, substring containment (proved equal to "occurs at some index") and `str.join`.
- `Values` models the JSON-like values the components store, and how Python's `str()` and `repr()` print them.
- `Types` holds the enumerations and the execution-context records.
- `Wrappers` holds `Option` and `Result`.

The clock reading (`datetime.now()`), the fresh snapshot id (`uuid.uuid4()`) and the ISO-8601 timestamp string are parameters of the operations that use them:

- `now: Time` is an integer count of microseconds.
- `id` is required to be absent from the directory.
- `stamp` is the text of the timestamp.

Each operation reads the clock once.

## Model

| member | source | states |
|---|---|---|
| Dicts.Keys | src/registry/agent_registry.py:36 | iterating a dict: one key per entry, in insertion order |
| Dicts.Get | src/registry/tool_registry.py:22 | `d.get(k)` finds a value exactly when `k` is a key |
| Dicts.GetFound | src/infrastructure/tracer/console_tracer.py:53 | a successful `d.get(k)` returns the value of a stored entry under `k` |
| Dicts.Put | src/registry/tool_registry.py:18 | `d[k] = v`: an existing key keeps its position and takes the new value, a new key is appended, and every other key is unchanged |
| Dicts.PutValid | src/registry/tool_registry.py:18 | `d[k] = v` keeps the keys distinct |
| Dicts.PutAbsent | src/registry/agent_registry.py:21 | assigning a key not yet present appends its entry after all others |
| Dicts.PutTwice | src/registry/tool_registry.py:18 | assigning a key twice is assigning it the second value: the last assignment wins |
| Dicts.Remove | src/infrastructure/memory/local_memory.py:96 | `del d[k]`: the key is gone, every other key keeps its value, and an absent key leaves the dict as it was |
| Dicts.MapValues | src/registry/tool_registry.py:26 | a dict comprehension `{k: f(v) for k, v in d.items()}`: the same keys in the same order, each value mapped |
| Dicts.GetMapValues | src/registry/agent_registry.py:36 | looking a key up in a comprehension is looking it up in the original and mapping the value |
| Memory.LocalMemory.constructor | src/infrastructure/memory/local_memory.py:22-31 | three empty scope tables and an empty failure log |
| Memory.Live | src/infrastructure/memory/local_memory.py:87-96 | an entry survives the purge exactly when it was present and `now < expiry`; no key is invented |
| Memory.LiveUnexpired | src/infrastructure/memory/local_memory.py:87-96 | every entry left after the purge has `now < expiry` |
| Memory.LiveValid | src/infrastructure/memory/local_memory.py:87-96 | the purge keeps keys distinct |
| Memory.GetLive | src/infrastructure/memory/local_memory.py:87-96 | after the purge a key yields its entry if unexpired, nothing otherwise |
| Memory.LiveIdempotent | src/infrastructure/memory/local_memory.py:87-96 | purging twice at the same instant removes nothing more |
| Memory.LiveLater | src/infrastructure/memory/local_memory.py:87-96 | a purge followed by a later purge is the later purge alone |
| Memory.ExpiredKeys | src/infrastructure/memory/local_memory.py:90-93 | every expired entry's key is collected, and every collected key belongs to an expired entry |
| Memory.ExpiredKeysExact | src/infrastructure/memory/local_memory.py:90-93 | in a table with distinct keys, a key is collected exactly when its entry has expired |
| Memory.WithoutKeys | src/infrastructure/memory/local_memory.py:95-96 | definition: the table after the second cleanup loop has deleted the keys `ks` one by one; `RemoveNextKey` and `WithoutExpiredIsLive` state its meaning |
| Memory.RemoveNextKey | src/infrastructure/memory/local_memory.py:95-96 | one more turn of the deleting loop is one more key dropped from the filter |
| Memory.WithoutExpiredIsLive | src/infrastructure/memory/local_memory.py:95-96 | deleting exactly the collected keys leaves the live table |
| Memory.LocalMemory.CleanupExpired | src/infrastructure/memory/local_memory.py:87-96 | the two loops replace the scope's table by its live part; other scopes and the failure log are untouched |
| Memory.LocalMemory.Store | src/infrastructure/memory/local_memory.py:36-42 | the key maps to the value with expiry `now + 24h`, the scope is then purged, and other scopes and the failure log are unchanged |
| Memory.Unexpired | src/infrastructure/memory/local_memory.py:92 | definition: an entry is valid strictly before its expiry, the negation of the purge test `now >= expire_time` |
| Memory.Alive | src/infrastructure/memory/local_memory.py:48-51 | definition: a lookup result kept only while its entry is unexpired |
| Memory.Stored | src/infrastructure/memory/local_memory.py:38-42 | definition: the scope's table after `store`, the entry set to expire at `now + 24h` and the table then purged; `StoreThenRetrieve` and `StoreKeepsOthers` state its meaning |
| Memory.Visible | src/infrastructure/memory/local_memory.py:48-56 | definition: what `retrieve` returns from a table, the value of the unexpired entry under the key or nothing; `VisibleAfterPurge` and `StoreThenRetrieve` state its meaning |
| Memory.StoreThenRetrieve | src/infrastructure/memory/local_memory.py:36-51 | a stored value is retrieved at any later instant before `now + 24h` and not from then on |
| Memory.StoreKeepsOthers | src/infrastructure/memory/local_memory.py:39-42 | storing a key changes no other key beyond the purge |
| Memory.VisibleAfterPurge | src/infrastructure/memory/local_memory.py:46-56 | after the purge a key is retrievable exactly when it is still in the table, with the same result as before the purge |
| Memory.LocalMemory.Retrieve | src/infrastructure/memory/local_memory.py:44-56 | purges, then returns the value exactly while `now < expiry`; a missing result (`None` of the model's `Option`) means the key is absent from the scope, while a stored Python `None` comes back as `Some(VNone)` |
| Memory.IsMatch | src/infrastructure/memory/local_memory.py:70 | definition: the lower-cased query is a substring of the lower-cased key or of the lower-cased `str()` of the value |
| Memory.Matching | src/infrastructure/memory/local_memory.py:62-71 | the values of the matching entries in table order, never more than the table holds; `MatchingExact` states which values they are |
| Memory.MatchingExact | src/infrastructure/memory/local_memory.py:62-71 | a value is in the results exactly when some entry holding it has the query in its key or value text, ignoring case |
| Memory.MatchIndices | src/infrastructure/memory/local_memory.py:63-71 | definition: the positions of the matching entries in iteration order; `MatchIndicesExact` states its meaning |
| Memory.MatchIndicesExact | src/infrastructure/memory/local_memory.py:63-71 | the matching positions are in range, strictly increasing, and exactly the positions whose entry matches |
| Memory.MatchingByIndex | src/infrastructure/memory/local_memory.py:62-73 | the results hold exactly one value per matching entry, in table order: their count is the number of matching positions, and the k-th result is the value at the k-th matching position |
| Memory.SearchFindsStringField | src/infrastructure/memory/local_memory.py:70 | a dict value with a string field containing the query, ignoring case, is matched whatever its key |
| Memory.LocalMemory.Search | src/infrastructure/memory/local_memory.py:58-73 | purges, then returns the matching values of the live table in table order; the failure log is untouched |
| Memory.Stamped | src/infrastructure/memory/local_memory.py:77-80 | the recorded pattern is the input with its `timestamp` field set; every other field is as given |
| Memory.Truncate | src/infrastructure/memory/local_memory.py:84-85 | definition: above 1000 patterns keep the newest 500, otherwise keep all; `TruncateAppend` states its bounds and order |
| Memory.TruncateAppend | src/infrastructure/memory/local_memory.py:81-85 | after append-and-cut the log has 1 to 1000 patterns and is a suffix of the appended log ending with the new pattern; the cut leaves exactly 500 |
| Memory.LocalMemory.RecordFailurePattern | src/infrastructure/memory/local_memory.py:75-85 | the log becomes the cut of the old log plus the stamped pattern, which is last; the tables are untouched |
| Text.Lower | src/infrastructure/memory/local_memory.py:70 | `.lower()`: the same length, each ASCII upper-case letter lower-cased (pointwise form in `LowerAt`) |
| Text.Contains | src/infrastructure/memory/local_memory.py:70 | definition of `q in t` on strings, by scanning the positions of `t`; `ContainsSpec` states its meaning |
| Values.Str | src/infrastructure/memory/local_memory.py:70 | definition of `str(stored_value)`: a string is its own text, other values print as their `repr`; `SearchFindsStringField` states what the search sees through it |
| Values.Repr | src/infrastructure/memory/local_memory.py:70 | definition of `repr()` for the stored values: `None`, booleans, integers, quoted strings, `[...]` lists and `{...}` dicts joined by `", "` |
| Values.QuoteString | src/infrastructure/memory/local_memory.py:70 | `repr()` of a string: the text between two quote characters |
| Text.ContainsSpec | src/infrastructure/memory/local_memory.py:70 | substring containment (`q in t`) holds exactly when `q` occurs at some index of `t` |
| Text.LowerAt | src/infrastructure/memory/local_memory.py:70 | lower-casing keeps the length and lower-cases each character |
| Text.ContainsLower | src/infrastructure/memory/local_memory.py:70 | a substring of a text stays a substring once both are lower-cased |
| Tracer.ConsoleTracer.constructor | src/infrastructure/tracer/console_tracer.py:22-24 | no events and no trace ids |
| Tracer.OnTrace | src/infrastructure/tracer/console_tracer.py:42-45 | the events of one trace all carry that trace id |
| Tracer.OnTraceAppend | src/infrastructure/tracer/console_tracer.py:42-45 | recording an event extends its own trace by exactly that event and no other trace |
| Tracer.OnTraceRecorded | src/infrastructure/tracer/console_tracer.py:45 | events recorded on one id come back after the earlier ones, in recording order |
| Tracer.OnTraceElsewhere | src/infrastructure/tracer/console_tracer.py:42-45 | events recorded on other ids leave a trace unchanged |
| Tracer.ConsoleTracer.RecordEvent | src/infrastructure/tracer/console_tracer.py:26-45 | the list of the trace id becomes the old list (or `[]`) plus the new event with the given type, payload and id; other ids' lists are unchanged; a new id is added last |
| Tracer.ConsoleTracer.GetTrace | src/infrastructure/tracer/console_tracer.py:51-53 | returns exactly the events recorded on the id, in order, and `[]` for an id never recorded; reads only |
| Snapshot.NewRecord | src/infrastructure/snapshot/json_snapshot.py:47-57 | definition: the record carries the given id, label and context, is stamped `now`, and expires 24 hours later; `RestoreCreated` states its meaning |
| Snapshot.Restorable | src/infrastructure/snapshot/json_snapshot.py:113-114 | definition: a snapshot is restorable and listed up to and including its expiry instant (`now <= expires_at`; `restore` refuses exactly `now > expires_at`) |
| Snapshot.SummaryOf | src/infrastructure/snapshot/json_snapshot.py:115-120 | definition: a listing entry carries id, label, timestamp and expiry of its record; `ListSnapshots` states which records are listed |
| Snapshot.Restore | src/infrastructure/snapshot/json_snapshot.py:80-97 | `NotFound` exactly when the id is absent, `Expired` exactly when present with `now > expiry`, and otherwise the captured context |
| Snapshot.RestoreCreated | src/infrastructure/snapshot/json_snapshot.py:47-57 | a snapshot just taken restores to its context up to and including `now + 24h`, and is expired after |
| Snapshot.RestoreOthers | src/infrastructure/snapshot/json_snapshot.py:124-138 | taking or deleting a snapshot leaves restoring any other snapshot as it was |
| Snapshot.JsonSnapshotManager.constructor | src/infrastructure/snapshot/json_snapshot.py:22-30 | the manager opens a directory that already holds snapshots |
| Snapshot.JsonSnapshotManager.CreateSnapshot | src/infrastructure/snapshot/json_snapshot.py:32-65 | exactly one record is added, under the fresh id it returns; all others are unchanged |
| Snapshot.JsonSnapshotManager.RestoreSnapshot | src/infrastructure/snapshot/json_snapshot.py:67-97 | the outcome is `Restore` of the directory; the directory is not modified |
| Snapshot.JsonSnapshotManager.ListSnapshots | src/infrastructure/snapshot/json_snapshot.py:99-122 | lists the summaries of exactly the records with `now <= expiry`, each once; the directory is not modified |
| Snapshot.JsonSnapshotManager.Delete | src/infrastructure/snapshot/json_snapshot.py:124-138 | returns true exactly when the id was present; afterwards it is absent and every other record is unchanged |
| Snapshot.CreateThenRestore | src/infrastructure/snapshot/json_snapshot.py:47-97 | restoring a snapshot before its expiry returns the context it captured |
| Agents.AgentRegistry.constructor | src/registry/agent_registry.py:14-15 | no agents |
| Agents.AgentRegistry.Register | src/registry/agent_registry.py:17-21 | a taken name is rejected with the map unchanged; otherwise the agent is appended, `get` of its name returns it, and other names are unchanged |
| Agents.FirstWithRole | src/registry/agent_registry.py:25-28 | the index of the earliest agent with the role, none earlier having it; none exactly when no agent has it |
| Agents.AgentRegistry.GetByRole | src/registry/agent_registry.py:23-28 | the loop returns the earliest-registered agent with the role, and fails exactly when no agent has it |
| Agents.AgentRegistry.Get | src/registry/agent_registry.py:30-32 | the agent registered under the name, and an `UnknownAgent` error exactly when the name is absent |
| Agents.Roles | src/registry/agent_registry.py:34-36 | the listing has exactly the registered names in order, each with its agent's role |
| Agents.RolesGet | src/registry/agent_registry.py:34-36 | looking a name up in the listing gives its agent's role, and nothing for an absent name |
| Agents.AgentRegistry.ListAgents | src/registry/agent_registry.py:34-36 | definition: `Roles` of the current agents; `Roles` and `RolesGet` state what the listing holds |
| Tools.ToolRegistry.constructor | src/registry/tool_registry.py:13-14 | no tools |
| Tools.ToolRegistry.Register | src/registry/tool_registry.py:16-18 | the name maps to the new tool, replacing any earlier one; every other name is unchanged |
| Tools.RegisterTwice | src/registry/tool_registry.py:16-18 | registering two tools of one name in turn is registering the second alone (last wins) |
| Tools.ToolRegistry.Get | src/registry/tool_registry.py:20-22 | the tool registered under the name, and `None`, not a failure, exactly when the name is absent |
| Tools.ToolRegistry.Exists | src/registry/tool_registry.py:28-30 | true exactly when `get` returns a tool |
| Tools.Versions | src/registry/tool_registry.py:24-26 | the listing has exactly the registered names in order, each with its tool's version |
| Tools.VersionsGet | src/registry/tool_registry.py:24-26 | looking a name up in the listing gives its tool's version, and nothing for an absent name |
| Tools.ToolRegistry.ListTools | src/registry/tool_registry.py:24-26 | definition: `Versions` of the current tools; `Versions` and `VersionsGet` state what the listing holds |

## Left out

- File and JSON I/O of the snapshot manager (`mkdir`, `open`, `json.dump`, `json.load`, `glob`, `exists`, `unlink`) are replaced by the `files` map. `model_dump()` followed by `ExecutionContext(**...)` is taken to return the same context. The directory is not re-created when it is missing.
- Snapshot.JsonSnapshotManager.constructor: it requires every record to be filed under its own id. A file whose stored `"id"` differs from its file name is outside the model. For such a file the source would list the stored id (`json_snapshot.py:116`) but restore by file name (`json_snapshot.py:80`).
- ISO-8601 formatting and `datetime.fromisoformat` are not modelled. Instants are integers and compared directly. The text stamps are opaque parameters.
- `uuid.uuid4()` is not modelled: the fresh id is a parameter required to be absent from the directory.
- `datetime.now()` is not modelled: each operation takes one reading, the parameter `now`, and uses it for every clock read the source makes during the call. The source reads the clock at each of these places:
  - `store` reads it for the expiry (`local_memory.py:38`) and again in the purge that follows.
  - `_cleanup_expired` reads it once per entry in its first loop (`local_memory.py:92`). With a moving clock, an entry tested late in the loop may be collected although it was live when the loop started. The model tests every entry against the same instant.
  - `retrieve` reads it during its purge and again at `local_memory.py:50`.
  - `search` reads it during its purge and again once per entry at `local_memory.py:64`.
  - `list_snapshots` reads it once per file (`json_snapshot.py:114`).
  - `restore_snapshot` reads it once (`json_snapshot.py:92`), and `create_snapshot` reads it once (`json_snapshot.py:48`).
- With a single reading, the expired branches after the purge cannot be taken (`local_memory.py:52-54`, `local_memory.py:64-67`), so they are dead branches of the model. With a moving clock, the delete in `search` would change the dict while iterating over it. That case is not modelled.
- The model passes values, not references, so what callers can reach through shared objects is not modelled:
  - `get_trace` returns the stored list itself (`console_tracer.py:53`), so a caller appending to it would change `_events`.
  - `retrieve` and `search` return the stored objects (`local_memory.py:51`, `local_memory.py:71`).
  - The registries' `get` methods return the registered objects.
- Memory.LocalMemory.Retrieve: its `Option` result tells a stored `None` (`Some(VNone)`) apart from a missing or expired key (`None`). The source returns Python `None` in both cases (`local_memory.py:51`, `local_memory.py:56`). The source-level result is `r.GetOr(VNone)`.
- Snapshot.JsonSnapshotManager.ListSnapshots: directory (glob) order is unspecified. The model proves which summaries are listed and that each appears once, not their order.
- The console line printed by `record_event` and the JSON rendering of its payload are not modelled.
- Tracer.Event stores the event type as the enumeration rather than its string `.value`.
- `asyncio` and the locks are not modelled. Every operation is one atomic sequential call.
- Text: lower-casing is ASCII only. Unicode case mapping is not modelled.
- Values: `repr` of strings chooses the quote character but does not escape quotes, backslashes or control characters. Floats and other Python types are not among the values.
- The abstract interfaces (`BaseMemory`, `BaseTracer`, `BaseSnapshotManager`, `BaseAgent`, `BaseTool`) have no behaviour. `BaseAgent.run` and `BaseTool.execute` are left out. An agent is its name and role. A tool is the record of its declared properties.
- The engine, policy gate, lifecycle transitions and step scheduler have no implementation in the source, so they are not modelled.
- Pydantic validation and default values of the records are not modelled.
