# IIO manager: a verified model

Scopy's `iio_manager` shares one IIO device stream among many consumers. One
manager exists per device name. It owns the device source block (`iio_block`).
Each consumer is attached through its own valve (a GNU Radio `copy` block that
can be enabled or disabled). Its job:

- **Tap registry** (`copy_blocks`): each valve with the buffer size its consumer asked
  for. Valves start disabled.
- **Buffer-size arbitration**: the device buffer size is the largest request of the
  enabled valves. When that maximum is 0, the size is kept as it is.
- **Lifecycle**: the top block starts when the first valve opens. It is stopped and
  joined when the last registered valve closes.
- **Connection ledger** (`connections`): every edge wired through the private
  `connect` (src/iio_manager.cpp:229-240). The constructor's dummy edges are wired
  directly and never recorded. `del_connection`
  uses it to tear a consumer's sub-graph down, forward and backward. It never
  removes an edge leaving the device source.
- **Instance registry** (`dev_map`, `_id`): device name to a weakly held manager. The
  manager is rebuilt once every user has released it.

The model is imperative, like the source. `IioManager.Manager` is a class whose
fields are the source's fields. Each member function of the source is a method
that `modifies` exactly the fields that function changes. The scanning loops
inside those functions are methods with loop invariants. Each one is proved
against a specification function (`MaxEnabled`, `RemoveFirst`, `Resize`,
`RemoveTap`), and the lemmas about those functions state what the source promises.

Foreign calls are modelled as follows:
- The GNU Radio runtime becomes ghost state. `graph` is the set of edges in the
  engine. `log` records the calls to `top_block::start/stop/wait` and
  `set_buffer_size`.
- Block creation draws fresh ids from a counter.
- libiio device lookup becomes a `Context` value: a map from device name to
  channel count.
- A valve's enabled flag becomes membership in `enabled`.
- Weak-pointer expiry becomes membership in `alive`. This is a real field, not a
  ghost one, because `get_instance` branches on `expired()`.
- `Release` stands for every user dropping its last strong reference.

Files: `ledger.dfy` (blocks, edges, ledger sequence theory, the teardown scan),
`taps.dfy` (registry entries, arbitration, registry scans), `manager.dfy` (the
manager class), `registry.dfy` (the instance registry), `scenarios.dfy` (client
histories checked against the contracts).

Points where the code does less, or more, than the class's comments and
interface suggest. The model follows the code:
- `update_buffer_size_unlocked` reconfigures the source whenever the maximum is
  nonzero, even if the size did not change.
- `stop` is also a no-op when the manager is not started.
- `disconnect` does not touch `_started`. Disconnecting the last enabled valve
  without stopping it first therefore leaves the pipeline running.
  `Manager.Valid` keeps only "an enabled registered valve implies started".
  The converse, `Manager.Consistent`, is preserved by `Connect`, `Start` (for a
  registered valve, see Findings), `Stop`, `StopAll` and `SetBufferSize`, but not by `Disconnect`.
- `get_instance` does not check whether construction will succeed before it
  increments `_id`, so a failed construction still uses up an id.
- `del_connection` stops at nothing but the device source. When two valves feed
  the same block, `disconnect` of one also erases the other valve's edge into that
  block. This is the backward scan started from the shared block at
  src/iio_manager.cpp:288, with the test at 266-267. When the other valve feeds the
  block through a converter, the scan goes on backward from the converter
  (src/iio_manager.cpp:284-286) and erases the valve-to-converter edge too. Only the
  edge from the source into the other valve is left, and that valve stays registered.
  `Scenarios.SharedDestination` and `Scenarios.SharedDestinationConverted` prove this.
  A consumer whose sub-graph shares no block with any other consumer is never
  touched: `Scenarios.SeparateConsumers`.

## Model

| member | source | states |
|---|---|---|
| Ledger.FindMatch | src/iio_manager.cpp:264-272 | returns the index of the first edge del_connection would erase: in forward mode one leaving the block, in backward mode one entering it from anything but the source. Returns the ledger length when no edge matches |
| Ledger.IndexOf | src/iio_manager.cpp:245-252 | returns the index of the first ledger entry equal to the 4-tuple, or the ledger length |
| Ledger.RemoveFirstAt | src/iio_manager.cpp:245-252 | erasing the first match of an edge is erasing at the index of its first occurrence |
| Ledger.RemoveFirstAbsent | src/iio_manager.cpp:245-252 | disconnecting an edge that is not recorded leaves the ledger unchanged |
| Ledger.RemoveFirstSpec | src/iio_manager.cpp:245-252 | exactly one occurrence of the edge disappears (multiset difference), the length drops by one exactly when the edge was present, and the other entries keep their order |
| Ledger.SubSeqRemoveAt | src/iio_manager.cpp:284 | erasing one entry leaves a sub-sequence of the ledger |
| Ledger.SubSeqTrans | src/iio_manager.cpp:284-288 | a sub-sequence of a sub-sequence is a sub-sequence, so erasures followed by recursive teardown still give a sub-sequence of the ledger |
| Ledger.RootedRemoveAt | src/iio_manager.cpp:266-267 | erasing an edge that does not leave the source keeps the edges leaving the source, in order |
| Taps.MaxEnabledIsMaximum | src/iio_manager.cpp:163-168 | the arbitration value bounds every enabled request, and when positive it equals one of them |
| Taps.ArbitrateSpec | src/iio_manager.cpp:161-174 | when some enabled tap asks for a nonzero size, the new size is the maximum over enabled taps. Otherwise the current size is kept, so a nonzero size never becomes 0 |
| Taps.ComputeMaxEnabled | src/iio_manager.cpp:163-168 | the loop computes the maximum request over enabled taps |
| Taps.ScanInUse | src/iio_manager.cpp:199-210 | the early-exit scan returns true exactly when some registered valve is enabled |
| Taps.FindTap | src/iio_manager.cpp:150-155 | returns the index of the first registry entry for the handle, or the registry length |
| Taps.ResizeSpec | src/iio_manager.cpp:302-307 | set_buffer_size's update replaces only the first entry of the handle. An unregistered handle leaves the registry unchanged |
| Taps.ResizeValves | src/iio_manager.cpp:302-307 | the update keeps every valve in place and every other entry unchanged |
| Taps.RemoveTapSpec | src/iio_manager.cpp:150-155 | disconnect erases exactly the first entry of the handle. An unregistered handle leaves the registry unchanged |
| IioManager.DummyEdgesShape | src/iio_manager.cpp:58-64 | the constructor's dummy wiring touches only the source, the dummy copy and the null sink, so it never meets a valve |
| IioManager.Manager.constructor | src/iio_manager.cpp:37-66 | a new manager: no taps, empty ledger, not started, no block allocated yet, the given buffer size, and an engine holding only the dummy channel edges. It satisfies the invariant and mirrors the ledger |
| IioManager.Manager.UpdateBufferSize | src/iio_manager.cpp:161-174 | the buffer size becomes Arbitrate of the registry. A reconfiguration is logged exactly when the maximum is nonzero |
| IioManager.Manager.LedgerConnect | src/iio_manager.cpp:229-240 | appends exactly one ledger entry and adds the same edge to the engine |
| IioManager.Manager.LedgerDisconnect | src/iio_manager.cpp:242-255 | the ledger becomes RemoveFirst of the edge and the engine loses the edge. The ledger mirror is preserved |
| IioManager.Manager.DelConnection | src/iio_manager.cpp:257-296 | terminates on the measure (ledger length, direction). The result is a sub-sequence of the ledger, and the engine loses exactly the erased edges. No remaining edge leaves the block. After a backward call the block is torn down: only edges from the source still enter it. Every block an erased edge led into or came from is torn down the same way, except the block itself after a forward call. For a block other than the source, the edges leaving the source are kept. For a set of blocks the block is outside of, with no non-source edge crossing its boundary, every edge leaving that set is kept |
| IioManager.Manager.Connect | src/iio_manager.cpp:111-142 | appends one fresh, disabled valve carrying the requested size, and returns it; exactly one block id is used up. Adds 2 ledger edges, or 3 with float conversion, the first being source/src_port to the valve. Preserves the invariant, the mirror and Consistent |
| IioManager.Manager.Wire | src/iio_manager.cpp:125-137 | records and creates the connect edges, through a converter when floats are requested |
| IioManager.Manager.Forget | src/iio_manager.cpp:148-155 | the valve is closed and its first registry entry, if any, is erased (RemoveTap), so the handle is no longer registered. Preserves the invariant |
| IioManager.Manager.Unregister | src/iio_manager.cpp:146-157 | disables the valve, erases its first registry entry and runs forward teardown from it. Every block an erased edge led into or came from, other than the valve, is torn down. The edges leaving the source, and those of any closed sub-graph the valve is outside of, are kept |
| IioManager.Manager.Disconnect | src/iio_manager.cpp:144-159 | as written: the valve is disabled and unregistered. The ledger shrinks to a sub-sequence with no edge leaving the valve. It keeps every edge leaving the source and every edge of a closed sub-graph the valve is outside of (another consumer's). Every block an erased edge led into or came from, other than the valve, is torn down. The engine then drops every edge touching the valve. `started` is unchanged |
| IioManager.Manager.PurgeInbound | src/iio_manager.cpp:157-158 | erases exactly the ledger entries entering a block, together with their engine edges |
| IioManager.Manager.DisconnectPurged | src/iio_manager.cpp:144-159 | corrected disconnect: as above, including the tear-down and the frame on other sub-graphs, but no ledger entry touches the valve afterwards, and the ledger keeps mirroring the engine |
| IioManager.Manager.Start | src/iio_manager.cpp:176-194 | a no-op for an enabled valve. Otherwise the valve is enabled, the manager is started and the size is re-arbitrated. Start is logged only on the false-to-true change of `started` |
| IioManager.Manager.StartRegistered | src/iio_manager.cpp:176-194 | corrected start: a handle that is not registered changes nothing. A registered one behaves as Start. Preserves Consistent for every handle |
| IioManager.Manager.Stop | src/iio_manager.cpp:196-221 | a no-op when not started or when the valve is closed. Otherwise the valve is closed. If another registered valve is open, `started` is kept and the size re-arbitrated. If not, stop and wait are logged and `started` becomes false. Preserves Consistent |
| IioManager.Manager.StopAll | src/iio_manager.cpp:223-227 | closes every registered valve and leaves other valves alone. From a consistent state it ends not started |
| IioManager.Manager.SetBufferSize | src/iio_manager.cpp:298-310 | the registry becomes Resize of the handle, then the size is re-arbitrated. Preserves the invariant and Consistent |
| Registry.DeviceRegistry.constructor | src/iio_manager.cpp:34-35 | an empty map and a zero id counter |
| Registry.DeviceRegistry.GetInstance | src/iio_manager.cpp:44-109 | a live entry returns the same manager and changes nothing. Otherwise the id counter advances. A null context fails with ContextInvalid, then a device missing from it with DeviceNotFound, and the map is untouched. Otherwise a fresh valid manager with the old id and the device's channel count is built and inserted or replaced under the name |
| Registry.DeviceRegistry.Release | src/iio_manager.cpp:91 | the manager's entry expires |
| Registry.SameManagerWhileHeld | src/iio_manager.cpp:85-96 | two requests for one device in a row give the same result, and the same manager on success |
| Registry.FreshManagerAfterRelease | src/iio_manager.cpp:91-108 | after the manager is released, a new request for a device the context holds builds a different, fresh manager, whether the first request found a live one or built it. When the first request built it, the new one has the next id |
| Scenarios.ConnectBoth | src/iio_manager.cpp:111-142 | two connects give two distinct disabled valves in registration order |
| Scenarios.StartBoth | src/iio_manager.cpp:176-194 | starting A (1024) then B (4096): one pipeline start, and the buffer goes 1024 then 4096 |
| Scenarios.StopBoth | src/iio_manager.cpp:196-221 | stopping A keeps the pipeline at 4096. Stopping B stops and joins it |
| Scenarios.TwoConsumers | src/iio_manager.cpp:176-221 | the whole two-consumer history ends not started at 4096, with the exact runtime call log |
| Scenarios.StaleSourceEdge | src/iio_manager.cpp:144-159 | after connect then disconnect, the source-to-valve edge is still in the ledger but not in the engine |
| Scenarios.PurgedSourceEdge | src/iio_manager.cpp:144-159 | the corrected disconnect on the same history keeps the mirror |
| Scenarios.SeparateConsumers | src/iio_manager.cpp:144-296 | with A and B on blocks of their own, disconnecting A erases A's edge into its block and keeps all three of B's edges in the ledger and the engine |
| Scenarios.SharedDestination | src/iio_manager.cpp:257-296 | with A and B feeding one block, disconnecting A erases B's edge into that block from the ledger and the engine, while B stays registered |
| Scenarios.SharedDestinationConverted | src/iio_manager.cpp:257-296 | with B feeding the shared block through a converter, disconnecting A erases B's valve-to-converter and converter-to-block edges from the ledger and the engine, and keeps source-to-B |
| Scenarios.StartAfterDisconnect | src/iio_manager.cpp:176-194 | start on a disconnected handle enables the orphan valve and starts the pipeline with no registered valve open, breaking Consistent |
| Scenarios.StartAfterDisconnectIgnored | src/iio_manager.cpp:176-194 | the corrected start on the same history changes nothing: not started, nothing logged |

## Findings

| source | as written | input that shows it | evidently intended | confidence | as-written member | corrected member |
|---|---|---|---|---|---|---|
| src/iio_manager.cpp:157-158 | `disconnect` erases only the edges that `del_connection(copy, false)` finds. The edge iio_block to copy is not outbound from the valve, and backward scans skip edges from iio_block, so that entry stays in `connections` forever. Meanwhile `hier_block2::disconnect(copy)` drops it from the graph | `connect(dst, 0, 0, false, n)` on a fresh manager, then `disconnect` of the returned handle | the ledger keeps mirroring the graph: the entry into the valve is erased too | not executed; medium | Scenarios.StaleSourceEdge | IioManager.Manager.DisconnectPurged |
| src/iio_manager.cpp:180-193 | `start` checks only the valve's own enabled flag. A handle already passed to `disconnect` is disabled but no longer registered, so `start` re-enables it, calls `top_block::start()` and sets `_started`, although no registered valve is open. The later `stop_all` never visits that valve | `connect(dst, 0, 0, false, 64)` on a fresh manager, `disconnect` of the returned handle, then `start` of it | a handle that is no longer registered is ignored, so started implies an open registered valve | not executed; low | Scenarios.StartAfterDisconnect | IioManager.Manager.StartRegistered |

## Left out

- Locking and concurrency are not modelled: `copy_mutex`, the unlocked iteration of
  `stop_all` against concurrent callers, and the atomicity of `get_instance`.
  Every operation is modelled as atomic and sequential.
- The timeout path is not modelled: `timeout_block`, `msg_connect`, `got_timeout`, `Q_EMIT`
  (src/iio_manager.cpp:68-72, 312-315). It is Qt signal plumbing.
- `set_device_timeout` (src/iio_manager.cpp:317-320) is not modelled: it is a
  one-line setter on the foreign device block.
- The destructor and shared-pointer ownership are not modelled. Expiry is the
  `alive` set together with `Release`.
- The lookup loop over `dev_map` is modelled as a map lookup. Keys are unique, so it
  finds the same entry.
- `dummy_copy->set_enabled(true)` is not modelled: the dummy copy is not a tap, and its flag
  affects nothing the manager computes.
- Integer widths are not modelled: `unsigned long` sizes, `unsigned` ids and `int` ports
  are unbounded integers. No wrap-around is modelled.
- GNU Radio would throw when an edge is connected twice or a missing edge is
  disconnected. The engine is a set of edges, where this does not show.
- Connect: requires the destination to be a block of the caller's own sub-graph.
  Passing a valve handle or the source as the destination is not modelled.
- Start, Stop, Disconnect: require a handle that is a valve this manager created.
  The source dereferences it as a copy block.
- StopAll: does not state the final buffer size or the runtime log.
- Disconnect: does not preserve Consistent, because the source does not stop the
  pipeline when the last open valve is disconnected.
- DelConnection: does not state the order of the erasures. What is kept is stated
  for the edges leaving the source and for closed sub-graphs the block is outside
  of, not edge by edge.
- src/pulseview/pv/view/signal.cpp is not part of this model. It is GUI code that
  forwards to sigrok channels and widgets.
